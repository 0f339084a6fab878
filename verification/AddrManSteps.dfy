/** The primitive writes of the address manager on one moment of its tables, and what each keeps.
    Each table's condition is carried over on its own; `…Same` lemmas are for the tables a write does
    not touch. */
module AddrManSteps {
  import opened AddrManTypes
  import opened AddrManSpec

  // ----- counting slots

  lemma SlotsDrop<T(!new)>(m: map<Slot, T>, s: Slot, n: T)
    requires s in m
    ensures SlotsOf(m - {s}, n) == SlotsOf(m, n) - {s}
    ensures |SlotsOf(m - {s}, n)| == |SlotsOf(m, n)| - (if m[s] == n then 1 else 0)
  {
    assert SlotsOf(m - {s}, n) == SlotsOf(m, n) - {s};
  }

  lemma SlotsPut<T(!new)>(m: map<Slot, T>, s: Slot, v: T, n: T)
    requires s !in m
    ensures SlotsOf(m[s := v], n) == if v == n then SlotsOf(m, n) + {s} else SlotsOf(m, n)
    ensures |SlotsOf(m[s := v], n)| == |SlotsOf(m, n)| + (if v == n then 1 else 0)
  {
    assert SlotsOf(m[s := v], n) == if v == n then SlotsOf(m, n) + {s} else SlotsOf(m, n);
  }

  lemma SlotsNonEmpty<T(!new)>(m: map<Slot, T>, s: Slot)
    requires s in m
    ensures |SlotsOf(m, m[s])| > 0
  {
    assert s in SlotsOf(m, m[s]);
  }

  lemma {:induction false} SubsetSize<T(!new)>(a: set<T>, b: set<T>)
    requires a <= b
    ensures |a| <= |b|
  {
    assert b == a + (b - a);
  }

  lemma SomeMember<T>(ids: set<T>) returns (n: T)
    requires ids != {}
    ensures n in ids
  {
    n :| n in ids;
  }

  // ----- walking through the slots

  /** The slots of a table that come before position i of bucket b. */
  ghost function Done<T>(m: map<Slot, T>, b: int, i: int): map<Slot, T> {
    m - (set s | s in m && !(s.bucket < b || (s.bucket == b && s.pos < i)))
  }

  lemma DoneNone<T>(m: map<Slot, T>)
    requires forall s <- m :: 0 <= s.bucket && 0 <= s.pos
    ensures Done(m, 0, 0) == map[]
  {
  }

  lemma DoneStep<T>(m: map<Slot, T>, b: int, i: int)
    ensures Done(m, b, i + 1) == if Slot(b, i) in m then Done(m, b, i)[Slot(b, i) := m[Slot(b, i)]] else Done(m, b, i)
    ensures Slot(b, i) !in Done(m, b, i)
  {
  }

  lemma DoneBucket<T>(m: map<Slot, T>, b: int)
    requires forall s <- m :: 0 <= s.pos < BUCKET_SIZE
    ensures Done(m, b, BUCKET_SIZE) == Done(m, b + 1, 0)
  {
  }

  lemma DoneAll<T>(m: map<Slot, T>, n: int)
    requires forall s <- m :: s.bucket < n
    ensures Done(m, n, 0) == m
  {
  }

  lemma DoneCount<T(!new)>(m: map<Slot, T>, b: int, i: int)
    requires Slot(b, i) in m
    ensures var a := m[Slot(b, i)]; |SlotsOf(Done(m, b, i), a)| < |SlotsOf(m, a)|
  {
    var a := m[Slot(b, i)];
    assert SlotsOf(Done(m, b, i), a) <= SlotsOf(m, a) - {Slot(b, i)};
    SubsetSize(SlotsOf(Done(m, b, i), a), SlotsOf(m, a) - {Slot(b, i)});
  }

  // ----- what a write does not touch

  lemma RandomSame(t: Tables, u: Tables)
    requires RandomOk(t) && t.random == u.random && t.info.Keys == u.info.Keys
    requires forall n <- t.info :: t.info[n].randomPos == u.info[n].randomPos
    ensures RandomOk(u)
  {
  }

  lemma AddrSame(t: Tables, u: Tables)
    requires AddrOk(t) && t.addr == u.addr && t.info.Keys == u.info.Keys
    requires forall n <- t.info :: t.info[n].Ip() == u.info[n].Ip()
    ensures AddrOk(u)
  {
  }

  lemma TriedSame(h: Hashes, t: Tables, u: Tables)
    requires TriedOk(h, t) && t.tried == u.tried && t.key == u.key && t.info.Keys == u.info.Keys
    requires forall n <- t.info :: t.info[n].inTried == u.info[n].inTried && t.info[n].addr.svc == u.info[n].addr.svc
    ensures TriedOk(h, u) && TriedIds(u) == TriedIds(t)
  {
    forall n ensures n in TriedIds(u) <==> n in TriedIds(t) {
      assert n in u.info <==> n in t.info;
    }
  }

  lemma NewSame(h: Hashes, t: Tables, u: Tables)
    requires NewOk(h, t) && t.new_ == u.new_ && t.key == u.key && t.info.Keys == u.info.Keys
    requires forall n <- t.info ::
               && t.info[n].inTried == u.info[n].inTried
               && t.info[n].addr.svc == u.info[n].addr.svc && t.info[n].refCount == u.info[n].refCount
    ensures NewOk(h, u)
  {
  }

  lemma EntriesSame(t: Tables, u: Tables, limbo: set<int>)
    requires EntriesOk(t, limbo) && t.info.Keys == u.info.Keys && t.idCount == u.idCount
    requires forall n <- t.info ::
               && t.info[n].refCount == u.info[n].refCount && t.info[n].inTried == u.info[n].inTried
               && t.info[n].lastTry == u.info[n].lastTry && t.info[n].lastSuccess == u.info[n].lastSuccess
    ensures EntriesOk(u, limbo) && NewIds(u, limbo) == NewIds(t, limbo)
  {
    forall n ensures n in NewIds(u, limbo) <==> n in NewIds(t, limbo) {
      assert n in u.info <==> n in t.info;
    }
  }

  lemma NamesSame(info: map<int, AddrInfo>, info': map<int, AddrInfo>, m: map<Slot, int>)
    requires forall s <- m :: var n := m[s]; n in info && n in info' && info[n].Ip() == info'[n].Ip()
    ensures Names(info, m) == Names(info', m)
  {
  }

  lemma NamesAt(info: map<int, AddrInfo>, m: map<Slot, int>, s: Slot)
    ensures s !in m ==> s !in Names(info, m)
    ensures s in m && m[s] in info ==> s in Names(info, m) && Names(info, m)[s] == info[m[s]].Ip()
  {
    if s in m {
      var n := m[s];
    }
  }

  lemma BookAt(t: Tables, n: int)
    requires AddrOk(t) && n in t.info
    ensures t.info[n].Ip() in BookOf(t.info, t.addr) && BookOf(t.info, t.addr)[t.info[n].Ip()] == PeerOf(t.info[n])
  {
  }

  lemma NamesDrop(info: map<int, AddrInfo>, m: map<Slot, int>, s: Slot)
    ensures Names(info, m - {s}) == Names(info, m) - {s}
  {
  }

  lemma NamesPut(info: map<int, AddrInfo>, m: map<Slot, int>, s: Slot, n: int)
    requires n in info
    ensures Names(info, m[s := n]) == Names(info, m)[s := info[n].Ip()]
  {
  }

  /** Changing bookkeeping fields alone leaves the book as it was. */
  lemma BookSame(t: Tables, u: Tables)
    requires t.addr == u.addr && t.info.Keys == u.info.Keys
    requires forall n <- t.info :: PeerOf(t.info[n]) == PeerOf(u.info[n])
    ensures BookOf(t.info, t.addr) == BookOf(u.info, u.addr)
  {
    forall a | a in t.addr
      ensures var n := t.addr[a]; n in t.info ==> PeerOf(t.info[n]) == PeerOf(u.info[n])
    {
    }
  }

  /** The counters play no part in the other conditions. */
  lemma Renumbered(h: Hashes, t: Tables, u: Tables, limbo: set<int>)
    requires u == t.(nNew := u.nNew, nTried := u.nTried)
    ensures RandomOk(t) == RandomOk(u) && AddrOk(t) == AddrOk(u) && EntriesOk(t, limbo) == EntriesOk(u, limbo)
    ensures TriedOk(h, t) == TriedOk(h, u) && NewOk(h, t) == NewOk(h, u)
    ensures TriedIds(t) == TriedIds(u) && NewIds(t, limbo) == NewIds(u, limbo) && Abs(t) == Abs(u)
  {
  }

  lemma AbsRenumbered(t: Tables, c: int)
    ensures Abs(t.(nNew := c)) == Abs(t)
  {
  }

  lemma RandomAt(t: Tables, n: int)
    requires RandomOk(t) && n in t.info
    ensures 0 <= t.info[n].randomPos < |t.random| && t.random[t.info[n].randomPos] == n
  {
  }

  lemma RandomEntry(t: Tables, k: int)
    requires RandomOk(t) && 0 <= k < |t.random|
    ensures t.random[k] in t.info
  {
    var n := t.random[k];
    assert n in t.info;
  }

  lemma LimboEntry(t: Tables, n: int, limbo: set<int>)
    requires EntriesOk(t, limbo) && n in limbo
    ensures n in t.info && !t.info[n].inTried && t.info[n].refCount == 0
  {
  }

  lemma EntryId(t: Tables, n: int, limbo: set<int>)
    requires EntriesOk(t, limbo) && n in t.info
    ensures 0 <= n
  {
  }

  lemma EntryTimes(t: Tables, n: int, limbo: set<int>)
    requires EntriesOk(t, limbo) && n in t.info
    ensures t.info[n].lastTry >= 0 && t.info[n].lastSuccess >= 0
    ensures t.info[n].inTried ==> t.info[n].lastSuccess > 0
  {
  }

  /** An entry that is not tried has a slot of the new table, at its own position there. */
  lemma NewHome(h: Hashes, t: Tables, n: int) returns (s: Slot)
    requires Inv(h, t, {}) && n in t.info && !t.info[n].inTried
    ensures s in t.new_ && t.new_[s] == n && InNewTable(s)
    ensures s.pos == h.BucketPosition(t.key, true, s.bucket, t.info[n].addr.svc)
  {
    assert |SlotsOf(t.new_, n)| > 0;
    s :| s in SlotsOf(t.new_, n);
  }

  lemma ClearNewNothing(h: Hashes, t: Tables, s: Slot)
    requires s !in t.new_
    ensures ClearNew(Abs(t), s) == Abs(t)
  {
  }

  lemma HolderCounted(h: Hashes, t: Tables, s: Slot)
    requires NewOk(h, t)
    ensures s in t.new_ ==> t.new_[s] in t.info && t.info[t.new_[s]].refCount > 0
  {
    if s in t.new_ {
      SlotsNonEmpty(t.new_, s);
      var n := t.new_[s];
      assert n in t.info;
    }
  }

  /** Who holds a new slot, by id and by address. */
  lemma SlotView(h: Hashes, t: Tables, s: Slot)
    requires NewOk(h, t) && AddrOk(t)
    ensures s in t.new_ <==> s in Abs(t).new_
    ensures s in t.new_ ==> t.new_[s] in t.info && Abs(t).new_[s] == t.info[t.new_[s]].Ip()
    ensures forall n <- t.info :: s in t.new_ ==> (Abs(t).new_[s] == t.info[n].Ip() <==> t.new_[s] == n)
  {
    NamesAt(t.info, t.new_, s);
    if s in t.new_ {
      var k := t.new_[s];
      assert k in t.info;
      forall n | n in t.info ensures t.info[k].Ip() == t.info[n].Ip() <==> k == n {
        assert t.addr[t.info[k].Ip()] == k && t.addr[t.info[n].Ip()] == n;
      }
    }
  }

  lemma EntryCount(t: Tables, n: int, limbo: set<int>)
    requires EntriesOk(t, limbo) && n in t.info
    ensures 0 <= t.info[n].refCount <= NEW_BUCKETS_PER_ADDRESS
    ensures !t.info[n].inTried && n !in limbo ==> t.info[n].refCount > 0
  {
  }

  lemma NextId(t: Tables, limbo: set<int>)
    requires EntriesOk(t, limbo)
    ensures t.idCount !in t.info
  {
  }

  lemma EvictNothing(h: Hashes, t: Tables, ts: Slot)
    requires ts !in t.tried
    ensures Evict(h, Abs(t), ts) == Abs(t)
  {
  }

  lemma NewNames(h: Hashes, t: Tables)
    requires NewOk(h, t)
    ensures forall s <- t.new_ :: var n := t.new_[s]; n in t.info
  {
  }

  lemma TriedNames(h: Hashes, t: Tables)
    requires TriedOk(h, t)
    ensures forall s <- t.tried :: var n := t.tried[s]; n in t.info
  {
  }

  lemma InvNames(h: Hashes, t: Tables, limbo: set<int>)
    requires Inv(h, t, limbo)
    ensures forall s <- t.new_ :: var n := t.new_[s]; n in t.info
    ensures forall s <- t.tried :: var n := t.tried[s]; n in t.info
  {
    NewNames(h, t);
    TriedNames(h, t);
  }

  /** The slots of an id are the slots of its address. */
  lemma SlotsNamed(t: Tables, m: map<Slot, int>, n: int)
    requires AddrOk(t) && n in t.info
    requires forall s <- m :: var k := m[s]; k in t.info
    ensures SlotsOf(Names(t.info, m), t.info[n].Ip()) == SlotsOf(m, n)
  {
    forall s ensures s in SlotsOf(Names(t.info, m), t.info[n].Ip()) <==> s in SlotsOf(m, n) {
      if s in m {
        var k := m[s];
        assert k in t.info;
        assert t.addr[t.info[k].Ip()] == k && t.addr[t.info[n].Ip()] == n;
      }
    }
  }

  /** What the specification reads off the peers is what the entry's own fields record. */
  lemma EntryView(h: Hashes, t: Tables, n: int, limbo: set<int>)
    requires Inv(h, t, limbo) && n in t.info
    ensures Abs(t).key == t.key
    ensures var a := t.info[n].Ip();
            && a in Abs(t).book && Abs(t).book[a] == PeerOf(t.info[n])
            && Refs(Abs(t), a) == t.info[n].refCount
            && (IsTried(Abs(t), a) <==> t.info[n].inTried)
  {
    BookAt(t, n);
    hide RandomOk, EntriesOk, TriedIds, NewIds, BookOf;
    NewNames(h, t);
    TriedNames(h, t);
    SlotsNamed(t, t.new_, n);
    SlotsNamed(t, t.tried, n);
    NewCount(h, t, n);
    TriedSlots(h, t, n);
  }

  lemma TriedSlots(h: Hashes, t: Tables, n: int)
    requires TriedOk(h, t) && n in t.info
    ensures t.info[n].inTried <==> SlotsOf(t.tried, n) != {}
  {
    if t.info[n].inTried {
      assert h.TriedSlot(t.key, t.info[n].addr.svc) in SlotsOf(t.tried, n);
    }
    if s :| s in SlotsOf(t.tried, n) {
      assert t.tried[s] == n;
    }
  }

  /** An address with no entry is not in the book. */
  lemma NoEntry(t: Tables, a: NetAddr)
    requires AddrOk(t)
    ensures a in t.addr <==> a in Abs(t).book
  {
    if a in t.addr {
      var n := t.addr[a];
      assert n in t.info;
    }
  }

  lemma EmptyTables(h: Hashes, key: nat)
    requires key != 0
    ensures var t := Tables(key, 0, map[], map[], [], 0, map[], 0, map[]);
            Inv(h, t, {}) && Abs(t) == Peers(key, map[], map[], map[])
  {
    var t := Tables(key, 0, map[], map[], [], 0, map[], 0, map[]);
    assert TriedIds(t) == {} && NewIds(t, {}) == {};
  }

  // ----- SwapRandom

  ghost function Swapped(t: Tables, i: int, j: int): Tables
    requires 0 <= i < |t.random| && 0 <= j < |t.random|
  {
    var a, b := t.random[i], t.random[j];
    if i == j || a !in t.info || b !in t.info then t
    else
      var info1 := t.info[a := t.info[a].(randomPos := j)];
      t.(info := info1[b := info1[b].(randomPos := i)], random := t.random[i := b][j := a])
  }

  lemma SwappedRandom(t: Tables, i: int, j: int)
    requires RandomOk(t) && 0 <= i < |t.random| && 0 <= j < |t.random|
    ensures RandomOk(Swapped(t, i, j))
  {
  }

  lemma SwappedRenumbered(t: Tables, i: int, j: int, c: int)
    requires 0 <= i < |t.random| && 0 <= j < |t.random|
    ensures Swapped(t.(nNew := c), i, j) == Swapped(t, i, j).(nNew := c)
  {
  }

  /** Everything but the random positions is as it was. */
  lemma SwappedSame(t: Tables, i: int, j: int)
    requires 0 <= i < |t.random| && 0 <= j < |t.random|
    ensures var u := Swapped(t, i, j);
            && u == t.(info := u.info, random := u.random)
            && u.info.Keys == t.info.Keys && |u.random| == |t.random|
            && forall n <- t.info :: u.info[n] == t.info[n].(randomPos := u.info[n].randomPos)
  {
  }

  lemma SwappedLast(t: Tables, n: int)
    requires RandomOk(t) && n in t.info
    ensures 0 <= t.info[n].randomPos < |t.random|
    ensures var u := Swapped(t, t.info[n].randomPos, |t.random| - 1);
            n in u.info && u.info[n].randomPos == |t.random| - 1
  {
    RandomAt(t, n);
    var m := t.random[|t.random| - 1];
    assert m in t.info;
  }

  lemma SwappedKeeps(h: Hashes, t: Tables, i: int, j: int, limbo: set<int>)
    requires Inv(h, t, limbo)
    requires 0 <= i < |t.random| && 0 <= j < |t.random|
    ensures Inv(h, Swapped(t, i, j), limbo)
    ensures Abs(Swapped(t, i, j)) == Abs(t)
  {
    hide Swapped, RandomOk, EntriesOk, TriedIds, NewIds, TriedOk, NewOk, AddrOk;
    var u := Swapped(t, i, j);
    NewNames(h, t);
    TriedNames(h, t);
    SwappedRandom(t, i, j);
    SwappedSame(t, i, j);
    AddrSame(t, u);
    TriedSame(h, t, u);
    NewSame(h, t, u);
    EntriesSame(t, u, limbo);
    BookSame(t, u);
    NamesSame(t.info, u.info, t.new_);
    NamesSame(t.info, u.info, t.tried);
  }

  // ----- Create

  ghost function Created(t: Tables, addr: Address, source: NetAddr): Tables {
    t.(idCount := t.idCount + 1,
       info := t.info[t.idCount := AddrInfo(addr, source, 0, 0, 0, 0, false, |t.random|)],
       addr := t.addr[addr.svc.ip := t.idCount],
       random := t.random + [t.idCount])
  }

  lemma CreatedLater(t: Tables, addr: Address, source: NetAddr, time: nat)
    ensures t.idCount in Created(t, addr, source).info
    ensures var u := Created(t, addr, source);
            var i := u.info[t.idCount];
            && u == t.(idCount := u.idCount, info := u.info, addr := u.addr, random := u.random)
            && u.(info := u.info[t.idCount := i.(addr := i.addr.(time := time))])
               == Created(t, addr.(time := time), source)
  {
  }

  lemma CreatedRandom(t: Tables, addr: Address, source: NetAddr)
    requires RandomOk(t) && t.idCount !in t.info
    ensures RandomOk(Created(t, addr, source))
  {
    var u := Created(t, addr, source);
    forall k | 0 <= k < |u.random| ensures var n := u.random[k]; n in u.info && u.info[n].randomPos == k {
      if k < |t.random| {
        var n := t.random[k];
        assert n in t.info;
      }
    }
  }

  lemma CreatedAddr(t: Tables, addr: Address, source: NetAddr)
    requires AddrOk(t) && t.idCount !in t.info && addr.svc.ip !in t.addr
    ensures AddrOk(Created(t, addr, source))
    ensures BookOf(Created(t, addr, source).info, Created(t, addr, source).addr) == BookOf(t.info, t.addr)[addr.svc.ip := Peer(addr, source, 0, 0, 0)]
  {
    var u, n := Created(t, addr, source), t.idCount;
    assert u.info.Keys == t.info.Keys + {n} && u.info[n].Ip() == addr.svc.ip;
    assert PeerOf(u.info[n]) == Peer(addr, source, 0, 0, 0);
    assert u.addr == t.addr[addr.svc.ip := n] && forall m <- t.info :: u.info[m] == t.info[m];
    hide Created;
    BookGrows(t, u, n);
  }

  lemma {:induction false} BookGrows(t: Tables, u: Tables, n: int)
    requires AddrOk(t) && n !in t.info && u.info.Keys == t.info.Keys + {n} && u.info[n].Ip() !in t.addr
    requires u.addr == t.addr[u.info[n].Ip() := n] && forall m <- t.info :: u.info[m] == t.info[m]
    ensures AddrOk(u) && BookOf(u.info, u.addr) == BookOf(t.info, t.addr)[u.info[n].Ip() := PeerOf(u.info[n])]
  {
    hide PeerOf;
  }

  lemma CreatedTried(h: Hashes, t: Tables, addr: Address, source: NetAddr)
    requires TriedOk(h, t) && t.idCount !in t.info
    ensures var u := Created(t, addr, source);
            TriedOk(h, u) && TriedIds(u) == TriedIds(t) && Names(u.info, u.tried) == Names(t.info, t.tried)
  {
    var u := Created(t, addr, source);
    assert u.info.Keys == t.info.Keys + {t.idCount} && !u.info[t.idCount].inTried;
    assert forall m <- t.info :: u.info[m] == t.info[m];
    assert u.tried == t.tried && u.key == t.key;
    hide Created;
    TriedGrows(h, t, u, t.idCount);
  }

  /** One more entry that is not tried makes no difference to the tried table. */
  lemma {:induction false} TriedGrows(h: Hashes, t: Tables, u: Tables, n: int)
    requires TriedOk(h, t) && u.tried == t.tried && u.key == t.key
    requires u.info.Keys == t.info.Keys + {n} && n !in t.info && !u.info[n].inTried
    requires forall m <- t.info :: u.info[m] == t.info[m]
    ensures TriedOk(h, u) && TriedIds(u) == TriedIds(t) && Names(u.info, u.tried) == Names(t.info, t.tried)
  {
    TriedNames(h, t);
    assert Names(u.info, t.tried) == Names(t.info, t.tried) by {
      hide TriedOk, TriedIds, Names;
      NamesSame(t.info, u.info, t.tried);
    }
    hide Names;
    forall m ensures m in TriedIds(u) <==> m in TriedIds(t) {
      assert m in u.info <==> m in t.info || m == n;
    }
  }

  lemma CreatedNew(h: Hashes, t: Tables, addr: Address, source: NetAddr)
    requires NewOk(h, t) && t.idCount !in t.info
    ensures var u := Created(t, addr, source);
            NewOk(h, u) && Names(u.info, u.new_) == Names(t.info, t.new_)
  {
    forall s | s in t.new_ ensures t.new_[s] != t.idCount {
      var n := t.new_[s];
      assert n in t.info;
    }
    assert SlotsOf(t.new_, t.idCount) == {};
    NamesSame(t.info, Created(t, addr, source).info, t.new_);
  }

  lemma CreatedEntries(t: Tables, addr: Address, source: NetAddr, limbo: set<int>)
    requires EntriesOk(t, limbo)
    ensures var u := Created(t, addr, source);
            EntriesOk(u, limbo + {t.idCount}) && NewIds(u, limbo + {t.idCount}) == NewIds(t, limbo)
    ensures t.idCount !in t.info
  {
  }

  lemma CreatedKeeps(h: Hashes, t: Tables, addr: Address, source: NetAddr, limbo: set<int>)
    requires Inv(h, t, limbo)
    requires addr.svc.ip !in t.addr
    ensures Inv(h, Created(t, addr, source), limbo + {t.idCount})
    ensures Abs(Created(t, addr, source))
         == Abs(t).(book := Abs(t).book[addr.svc.ip := Peer(addr, source, 0, 0, 0)])
  {
    hide RandomOk, AddrOk, TriedOk, NewOk, EntriesOk, TriedIds, NewIds, BookOf, Names;
    CreatedEntries(t, addr, source, limbo);
    CreatedRandom(t, addr, source);
    CreatedAddr(t, addr, source);
    CreatedTried(h, t, addr, source);
    CreatedNew(h, t, addr, source);
  }

  // ----- Delete

  /** The last step of Delete: the entry is already at the end of the random vector. */
  ghost function Popped(t: Tables, n: int): Tables
    requires n in t.info && |t.random| > 0
  {
    t.(info := t.info - {n}, addr := t.addr - {t.info[n].Ip()}, random := t.random[..|t.random| - 1])
  }

  lemma PoppedRandom(t: Tables, n: int)
    requires RandomOk(t) && n in t.info && t.info[n].randomPos == |t.random| - 1
    ensures RandomOk(Popped(t, n))
  {
    var u := Popped(t, n);
    forall m | m in u.info ensures var k := u.info[m].randomPos; 0 <= k < |u.random| && u.random[k] == m {
      assert t.random[t.info[m].randomPos] == m;
      assert t.random[t.info[n].randomPos] == n;
    }
  }

  lemma PoppedAddr(t: Tables, n: int)
    requires AddrOk(t) && n in t.info && |t.random| > 0
    ensures AddrOk(Popped(t, n))
    ensures BookOf(Popped(t, n).info, Popped(t, n).addr) == BookOf(t.info, t.addr) - {t.info[n].Ip()}
  {
  }

  lemma PoppedTried(h: Hashes, t: Tables, n: int)
    requires TriedOk(h, t) && n in t.info && !t.info[n].inTried && |t.random| > 0
    ensures var u := Popped(t, n);
            TriedOk(h, u) && TriedIds(u) == TriedIds(t) && Names(u.info, u.tried) == Names(t.info, t.tried)
  {
    NamesSame(t.info, Popped(t, n).info, t.tried);
  }

  lemma PoppedNew(h: Hashes, t: Tables, n: int)
    requires NewOk(h, t) && n in t.info && t.info[n].refCount == 0 && |t.random| > 0
    ensures var u := Popped(t, n);
            NewOk(h, u) && Names(u.info, u.new_) == Names(t.info, t.new_)
  {
    forall s | s in t.new_ ensures t.new_[s] != n {
      SlotsNonEmpty(t.new_, s);
    }
    NamesSame(t.info, Popped(t, n).info, t.new_);
  }

  lemma PoppedEntries(t: Tables, n: int, limbo: set<int>)
    requires EntriesOk(t, limbo) && n in limbo && |t.random| > 0
    ensures EntriesOk(Popped(t, n), limbo - {n}) && NewIds(Popped(t, n), limbo - {n}) == NewIds(t, limbo)
    ensures !t.info[n].inTried && t.info[n].refCount == 0
  {
  }

  lemma PoppedKeeps(h: Hashes, t: Tables, n: int, limbo: set<int>)
    requires Inv(h, t, limbo)
    requires n in limbo && n in t.info && |t.random| > 0 && t.info[n].randomPos == |t.random| - 1
    ensures Inv(h, Popped(t, n), limbo - {n})
    ensures Abs(Popped(t, n)) == Abs(t).(book := Abs(t).book - {t.info[n].Ip()})
  {
    hide RandomOk, AddrOk, TriedOk, NewOk, EntriesOk, TriedIds, NewIds, BookOf, Names;
    PoppedEntries(t, n, limbo);
    PoppedRandom(t, n);
    PoppedAddr(t, n);
    PoppedTried(h, t, n);
    PoppedNew(h, t, n);
  }

  /** All of Delete: the entry is swapped to the end of the random vector, and goes. */
  ghost function Deleted(t: Tables, n: int): Tables
    requires RandomOk(t) && n in t.info
  {
    SwappedLast(t, n);
    var u := Swapped(t, t.info[n].randomPos, |t.random| - 1);
    SwappedSame(t, t.info[n].randomPos, |t.random| - 1);
    Popped(u, n).(nNew := t.nNew - 1)
  }

  lemma {:induction false} DeletedSame(t: Tables, n: int)
    requires RandomOk(t) && n in t.info
    ensures var u := Deleted(t, n);
            && u == t.(info := u.info, addr := u.addr, random := u.random, nNew := u.nNew)
            && u.info.Keys == t.info.Keys - {n} && u.nNew == t.nNew - 1
            && forall m <- u.info :: u.info[m] == t.info[m].(randomPos := u.info[m].randomPos)
  {
    hide Swapped, RandomOk;
    SwappedLast(t, n);
    SwappedSame(t, t.info[n].randomPos, |t.random| - 1);
  }

  /** Deleting an entry in limbo, where `nNew` still counts it and `extra` more that are in limbo. */
  lemma {:induction false} DeletedKeeps(h: Hashes, t: Tables, n: int, limbo: set<int>, extra: int)
    requires n in limbo && Inv(h, t.(nNew := t.nNew - 1 - extra), limbo)
    ensures RandomOk(t) && n in t.info && !t.info[n].inTried && t.info[n].refCount == 0
    ensures var u := Deleted(t, n);
            && Inv(h, u.(nNew := u.nNew - extra), limbo - {n})
            && Abs(u) == Abs(t).(book := Abs(t).book - {t.info[n].Ip()})
  {
    hide RandomOk, AddrOk, TriedOk, NewOk, EntriesOk, TriedIds, NewIds, Swapped, Popped, Abs;
    var less := t.(nNew := t.nNew - 1 - extra);
    LimboEntry(less, n, limbo);
    Renumbered(h, less, t, limbo);
    SwappedLast(less, n);
    var i, j := t.info[n].randomPos, |t.random| - 1;
    SwappedSame(less, i, j);
    SwappedKeeps(h, less, i, j, limbo);
    SwappedRenumbered(t, i, j, less.nNew);
    var u := Swapped(less, i, j);
    PoppedKeeps(h, u, n, limbo);
    PoppedRenumbered(u, n, t.nNew - 1);
    AbsRenumbered(Popped(u, n), t.nNew - 1);
    PoppedRenumbered(Swapped(t, i, j), n, t.nNew - 1 - extra);
    assert u == Swapped(t, i, j).(nNew := less.nNew);
  }

  lemma PoppedRenumbered(t: Tables, n: int, c: int)
    requires n in t.info && |t.random| > 0
    ensures Popped(t.(nNew := c), n) == Popped(t, n).(nNew := c)
  {
  }

  // ----- one slot of the new table

  /** Clears an occupied new slot and lowers the count of the entry it held. */
  ghost function Dropped(t: Tables, s: Slot): Tables
    requires s in t.new_ && t.new_[s] in t.info
  {
    var n := t.new_[s];
    t.(new_ := t.new_ - {s}, info := t.info[n := t.info[n].(refCount := t.info[n].refCount - 1)])
  }

  lemma DroppedRenumbered(t: Tables, s: Slot, c: int)
    requires s in t.new_ && t.new_[s] in t.info
    ensures Dropped(t.(nNew := c), s) == Dropped(t, s).(nNew := c)
  {
  }

  lemma DroppedSame(t: Tables, s: Slot)
    requires s in t.new_ && t.new_[s] in t.info
    ensures var u := Dropped(t, s);
            && u == t.(info := u.info, new_ := t.new_ - {s})
            && u.info == t.info[t.new_[s] := t.info[t.new_[s]].(refCount := t.info[t.new_[s]].refCount - 1)]
            && u.info.Keys == t.info.Keys
            && (forall n <- t.info :: u.info[n] == t.info[n].(refCount := u.info[n].refCount))
            && (forall n <- t.info :: u.info[n].refCount == t.info[n].refCount - if n == t.new_[s] then 1 else 0)
  {
  }

  lemma DroppedNew(h: Hashes, t: Tables, s: Slot)
    requires NewOk(h, t) && s in t.new_ && t.new_[s] in t.info
    ensures NewOk(h, Dropped(t, s))
    ensures Dropped(t, s).info[t.new_[s]].refCount == |SlotsOf(Dropped(t, s).new_, t.new_[s])|
    ensures t.info[t.new_[s]].refCount > 0 && !t.info[t.new_[s]].inTried
  {
    var u := Dropped(t, s);
    SlotsNonEmpty(t.new_, s);
    forall m | m in u.info ensures u.info[m].refCount == |SlotsOf(u.new_, m)| {
      SlotsDrop(t.new_, s, m);
    }
  }

  lemma DroppedEntries(t: Tables, s: Slot, limbo: set<int>)
    requires EntriesOk(t, limbo) && s in t.new_
    requires var n := t.new_[s]; n in t.info && !t.info[n].inTried && t.info[n].refCount > 0
    ensures var n := t.new_[s];
            var u := Dropped(t, s);
            && n !in limbo
            && (u.info[n].refCount == 0 ==>
                  EntriesOk(u, limbo + {n}) && NewIds(u, limbo + {n}) == NewIds(t, limbo) - {n} && n in NewIds(t, limbo))
            && (u.info[n].refCount != 0 ==> EntriesOk(u, limbo) && NewIds(u, limbo) == NewIds(t, limbo))
  {
    var n := t.new_[s];
    assert n in t.info;
    DroppedSame(t, s);
  }

  /** What dropping a reference leaves alone, and what it does to the peers. */
  lemma {:induction false} DroppedRest(h: Hashes, t: Tables, s: Slot)
    requires RandomOk(t) && AddrOk(t) && TriedOk(h, t) && NewOk(h, t)
    requires s in t.new_ && t.new_[s] in t.info
    ensures var u := Dropped(t, s);
            && RandomOk(u) && AddrOk(u) && TriedOk(h, u) && TriedIds(u) == TriedIds(t)
            && Abs(u) == Abs(t).(new_ := Abs(t).new_ - {s})
  {
    hide Dropped, TriedIds, NewIds, NewOk, EntriesOk, RandomOk, TriedOk, AddrOk, BookOf, Names, SlotsOf;
    var u := Dropped(t, s);
    DroppedSame(t, s);
    RandomSame(t, u);
    AddrSame(t, u);
    TriedSame(h, t, u);
    BookSame(t, u);
    NewNames(h, t);
    TriedNames(h, t);
    NamesSame(t.info, u.info, t.new_);
    NamesSame(t.info, u.info, t.tried);
    NamesDrop(u.info, t.new_, s);
  }

  lemma DroppedKeeps(h: Hashes, t: Tables, s: Slot, limbo: set<int>)
    requires Inv(h, t, limbo)
    requires s in t.new_ && t.new_[s] in t.info
    ensures var n := t.new_[s];
            var u := Dropped(t, s);
            && t.info[n].refCount > 0 && n !in limbo
            && u.info[n].refCount == |SlotsOf(u.new_, n)|
            && (u.info[n].refCount == 0 ==> Inv(h, u.(nNew := u.nNew - 1), limbo + {n}))
            && (u.info[n].refCount != 0 ==> Inv(h, u, limbo))
            && Abs(u) == Abs(t).(new_ := Abs(t).new_ - {s})
  {
    hide Dropped, TriedIds, NewIds, NewOk, EntriesOk, RandomOk, TriedOk, AddrOk, SlotsOf, Abs;
    var u := Dropped(t, s);
    var n := t.new_[s];
    DroppedNew(h, t, s);
    DroppedEntries(t, s, limbo);
    DroppedRest(h, t, s);
    DroppedSame(t, s);
    if u.info[n].refCount == 0 { Renumbered(h, u, u.(nNew := u.nNew - 1), limbo + {n}); }
  }

  /** Dropping a slot, and the entry with its last slot, is what the specification calls ClearNew. */
  lemma DroppedIsClearNew(h: Hashes, t: Tables, s: Slot, limbo: set<int>)
    requires Inv(h, t, limbo)
    requires s in t.new_ && t.new_[s] in t.info
    ensures var u := Dropped(t, s);
            var n := t.new_[s];
            ClearNew(Abs(t), s) == if u.info[n].refCount == 0 then Abs(u).(book := Abs(u).book - {u.info[n].Ip()}) else Abs(u)
  {
    hide Dropped, TriedIds, NewIds, NewOk, EntriesOk, RandomOk, TriedOk, AddrOk, BookOf, Names;
    var u, n := Dropped(t, s), t.new_[s];
    DroppedKeeps(h, t, s, limbo);
    DroppedSame(t, s);
    Renumbered(h, u, u.(nNew := u.nNew - 1), limbo + {n});
    NewNames(h, u);
    SlotsNamed(u, u.new_, n);
    NamesAt(t.info, t.new_, s);
    assert Abs(u).new_ == Names(u.info, u.new_);
  }

  /** All of ClearNew: an occupied slot is dropped, and its entry deleted if that was its last one. */
  ghost function Cleared(t: Tables, s: Slot): Tables
    requires RandomOk(t) && (s in t.new_ ==> t.new_[s] in t.info)
  {
    if s !in t.new_ then t
    else
      var n, u := t.new_[s], Dropped(t, s);
      DroppedSame(t, s);
      RandomSame(t, u);
      if u.info[n].refCount == 0 then Deleted(u, n) else u
  }

  lemma {:induction false} ClearedSame(t: Tables, s: Slot)
    requires RandomOk(t) && (s in t.new_ ==> t.new_[s] in t.info)
    ensures var u := Cleared(t, s);
            && u == t.(info := u.info, addr := u.addr, random := u.random, nNew := u.nNew, new_ := t.new_ - {s})
            && (forall m <- u.info ::
                  && m in t.info
                  && u.info[m] == t.info[m].(randomPos := u.info[m].randomPos, refCount := u.info[m].refCount))
            && (forall m <- t.info ::
                  s !in t.new_ || m != t.new_[s] ==> m in u.info && u.info[m].refCount == t.info[m].refCount)
  {
    hide Dropped, Deleted, RandomOk;
    if s in t.new_ {
      DroppedSame(t, s);
      var n, u := t.new_[s], Dropped(t, s);
      if u.info[n].refCount == 0 {
        RandomSame(t, u);
        DeletedSame(u, n);
      }
    } else {
      assert t.new_ - {s} == t.new_;
    }
  }

  /** An entry that has lost its last slot is in limbo. */
  lemma {:induction false} DroppedInLimbo(h: Hashes, t: Tables, s: Slot, limbo: set<int>, extra: int)
    requires Inv(h, t.(nNew := t.nNew - extra), limbo) && s in t.new_
    ensures t.new_[s] in t.info
    ensures var n, u := t.new_[s], Dropped(t, s);
            && (u.info[n].refCount == 0 ==> n !in limbo && Inv(h, u.(nNew := u.nNew - 1 - extra), limbo + {n}))
            && (u.info[n].refCount != 0 ==> Inv(h, u.(nNew := u.nNew - extra), limbo))
  {
    hide Inv, Dropped, Abs;
    var less := t.(nNew := t.nNew - extra);
    InvNames(h, less, limbo);
    DroppedKeeps(h, less, s, limbo);
    DroppedSame(less, s);
    DroppedSame(t, s);
    DroppedRenumbered(t, s, less.nNew);
    var n, v, u := t.new_[s], Dropped(less, s), Dropped(t, s);
    if u.info[n].refCount == 0 {
      assert u.(nNew := u.nNew - 1 - extra) == v.(nNew := v.nNew - 1);
    } else {
      assert u.(nNew := u.nNew - extra) == v;
    }
  }

  lemma {:induction false} ClearedKeeps(h: Hashes, t: Tables, s: Slot, limbo: set<int>, extra: int)
    requires Inv(h, t.(nNew := t.nNew - extra), limbo)
    ensures RandomOk(t) && (s in t.new_ ==> t.new_[s] in t.info)
    ensures var u := Cleared(t, s);
            Inv(h, u.(nNew := u.nNew - extra), limbo) && Abs(u) == ClearNew(Abs(t), s)
  {
    hide AddrOk, TriedOk, NewOk, EntriesOk, TriedIds, NewIds, Dropped, Deleted, Abs, RandomOk, ClearNew, SlotsOf;
    var less := t.(nNew := t.nNew - extra);
    Renumbered(h, less, t, limbo);
    InvNames(h, less, limbo);
    if s in t.new_ {
      var n, u := t.new_[s], Dropped(t, s);
      DroppedInLimbo(h, t, s, limbo, extra);
      DroppedSame(t, s);
      DroppedSame(less, s);
      DroppedIsClearNew(h, less, s, limbo);
      DroppedRenumbered(t, s, less.nNew);
      AbsRenumbered(t, less.nNew);
      AbsRenumbered(u, less.nNew);
      if u.info[n].refCount == 0 {
        DeletedKeeps(h, u, n, limbo + {n}, extra);
        assert limbo + {n} - {n} == limbo;
      }
    } else {
      ClearNewNothing(h, t, s);
    }
  }

  /** Writes entry n into an empty new slot and raises its count. */
  ghost function Placed(t: Tables, s: Slot, n: int): Tables
    requires n in t.info
  {
    t.(new_ := t.new_[s := n], info := t.info[n := t.info[n].(refCount := t.info[n].refCount + 1)])
  }

  lemma PlacedRenumbered(t: Tables, s: Slot, n: int, c: int)
    requires n in t.info
    ensures Placed(t.(nNew := c), s, n) == Placed(t, s, n).(nNew := c)
  {
  }

  lemma PlacedSame(t: Tables, s: Slot, n: int)
    requires n in t.info
    ensures var u := Placed(t, s, n);
            && u == t.(info := u.info, new_ := t.new_[s := n])
            && u.info.Keys == t.info.Keys
            && (forall m <- t.info :: u.info[m] == t.info[m].(refCount := u.info[m].refCount))
            && (forall m <- t.info :: u.info[m].refCount == t.info[m].refCount + if m == n then 1 else 0)
  {
  }

  lemma PlacedNew(h: Hashes, t: Tables, s: Slot, n: int)
    requires NewOk(h, t) && s !in t.new_ && InNewTable(s) && n in t.info && !t.info[n].inTried
    requires s.pos == h.BucketPosition(t.key, true, s.bucket, t.info[n].addr.svc)
    ensures NewOk(h, Placed(t, s, n))
  {
    var u := Placed(t, s, n);
    forall m | m in u.info ensures u.info[m].refCount == |SlotsOf(u.new_, m)| {
      SlotsPut(t.new_, s, n, m);
    }
  }

  lemma PlacedEntries(t: Tables, s: Slot, n: int, limbo: set<int>)
    requires EntriesOk(t, limbo) && n in t.info && !t.info[n].inTried
    requires n in limbo || t.info[n].refCount < NEW_BUCKETS_PER_ADDRESS
    ensures var u := Placed(t, s, n);
            && EntriesOk(u, limbo - {n})
            && (if n in limbo then NewIds(u, limbo - {n}) == NewIds(t, limbo) + {n} && n !in NewIds(t, limbo)
                else NewIds(u, limbo - {n}) == NewIds(t, limbo))
  {
    PlacedSame(t, s, n);
  }

  lemma PlacedAbs(h: Hashes, t: Tables, s: Slot, n: int, limbo: set<int>)
    requires Inv(h, t, limbo) && n in t.info
    ensures Abs(Placed(t, s, n)) == Abs(t).(new_ := Abs(t).new_[s := t.info[n].Ip()])
  {
    hide Placed, TriedIds, NewIds, NewOk, EntriesOk, RandomOk, TriedOk, AddrOk;
    var u := Placed(t, s, n);
    PlacedSame(t, s, n);
    BookSame(t, u);
    NewNames(h, t);
    TriedNames(h, t);
    NamesSame(t.info, u.info, t.new_);
    NamesSame(t.info, u.info, t.tried);
    NamesPut(u.info, t.new_, s, n);
  }

  lemma {:induction false} PlacedRest(h: Hashes, t: Tables, s: Slot, n: int)
    requires RandomOk(t) && AddrOk(t) && TriedOk(h, t) && n in t.info
    ensures var u := Placed(t, s, n);
            && RandomOk(u) && AddrOk(u) && TriedOk(h, u) && TriedIds(u) == TriedIds(t)
            && u.key == t.key && u.nTried == t.nTried && u.nNew == t.nNew
  {
    hide Placed, TriedIds, RandomOk, TriedOk, AddrOk;
    var u := Placed(t, s, n);
    PlacedSame(t, s, n);
    RandomSame(t, u);
    AddrSame(t, u);
    TriedSame(h, t, u);
  }

  lemma PlacedKeeps(h: Hashes, t: Tables, s: Slot, n: int, limbo: set<int>)
    requires Inv(h, t, limbo)
    requires s !in t.new_ && InNewTable(s) && n in t.info && !t.info[n].inTried
    requires n in limbo || t.info[n].refCount < NEW_BUCKETS_PER_ADDRESS
    requires s.pos == h.BucketPosition(t.key, true, s.bucket, t.info[n].addr.svc)
    ensures var u := Placed(t, s, n);
            && Inv(h, if n in limbo then u.(nNew := u.nNew + 1) else u, limbo - {n})
  {
    hide Placed, TriedIds, NewIds, NewOk, EntriesOk, RandomOk, TriedOk, AddrOk, Abs, SlotsOf;
    var u := Placed(t, s, n);
    PlacedNew(h, t, s, n);
    PlacedEntries(t, s, n, limbo);
    PlacedRest(h, t, s, n);
    if n in limbo { Renumbered(h, u, u.(nNew := u.nNew + 1), limbo - {n}); }
  }

  // ----- one slot of the tried table

  ghost function Demoted(t: Tables, s: Slot): Tables
    requires s in t.tried && t.tried[s] in t.info
  {
    var n := t.tried[s];
    t.(tried := t.tried - {s}, info := t.info[n := t.info[n].(inTried := false)], nTried := t.nTried - 1)
  }

  lemma DemotedSame(t: Tables, s: Slot)
    requires s in t.tried && t.tried[s] in t.info
    ensures var u := Demoted(t, s);
            && u == t.(info := u.info, tried := t.tried - {s}, nTried := t.nTried - 1)
            && u.info.Keys == t.info.Keys
            && (forall m <- t.info :: u.info[m] == t.info[m].(inTried := u.info[m].inTried))
            && (forall m <- t.info :: u.info[m].inTried == (m != t.tried[s] && t.info[m].inTried))
  {
  }

  lemma DemotedTried(h: Hashes, t: Tables, s: Slot)
    requires TriedOk(h, t) && s in t.tried && t.tried[s] in t.info
    ensures TriedOk(h, Demoted(t, s))
    ensures TriedIds(Demoted(t, s)) == TriedIds(t) - {t.tried[s]} && t.tried[s] in TriedIds(t)
    ensures t.info[t.tried[s]].inTried
  {
    var n := t.tried[s];
    assert n in t.info && t.info[n].inTried;
    var u := Demoted(t, s);
    forall m | m in u.info && u.info[m].inTried
      ensures var s' := h.TriedSlot(u.key, u.info[m].addr.svc); s' in u.tried && u.tried[s'] == m
    {
      assert t.info[m].inTried && m != n;
    }
    forall q | q in u.tried ensures var m := u.tried[q]; m in u.info && u.info[m].inTried {
      var m := t.tried[q];
      assert q == h.TriedSlot(t.key, t.info[m].addr.svc);
      assert s == h.TriedSlot(t.key, t.info[n].addr.svc);
    }
  }

  lemma DemotedNew(h: Hashes, t: Tables, s: Slot)
    requires NewOk(h, t) && s in t.tried && t.tried[s] in t.info && t.info[t.tried[s]].inTried
    ensures NewOk(h, Demoted(t, s))
  {
  }

  lemma DemotedEntries(t: Tables, s: Slot, limbo: set<int>)
    requires EntriesOk(t, limbo) && s in t.tried
    requires t.tried[s] in t.info && t.info[t.tried[s]].inTried
    ensures var n := t.tried[s];
            && n !in limbo && EntriesOk(Demoted(t, s), limbo + {n})
            && NewIds(Demoted(t, s), limbo + {n}) == NewIds(t, limbo)
  {
    var n := t.tried[s];
    assert n in t.info;
    DemotedSame(t, s);
  }

  lemma {:induction false} DemotedRest(h: Hashes, t: Tables, s: Slot)
    requires RandomOk(t) && AddrOk(t) && TriedOk(h, t) && NewOk(h, t)
    requires s in t.tried && t.tried[s] in t.info
    ensures var u := Demoted(t, s);
            RandomOk(u) && AddrOk(u) && Abs(u) == Abs(t).(tried := Abs(t).tried - {s})
  {
    hide Demoted, TriedIds, NewIds, NewOk, EntriesOk, RandomOk, TriedOk, AddrOk, BookOf, Names, SlotsOf;
    var u := Demoted(t, s);
    DemotedSame(t, s);
    RandomSame(t, u);
    AddrSame(t, u);
    BookSame(t, u);
    NewNames(h, t);
    TriedNames(h, t);
    NamesSame(t.info, u.info, t.new_);
    NamesSame(t.info, u.info, t.tried);
    NamesDrop(u.info, t.tried, s);
  }

  lemma DemotedKeeps(h: Hashes, t: Tables, s: Slot, limbo: set<int>)
    requires Inv(h, t, limbo)
    requires s in t.tried && t.tried[s] in t.info
    ensures t.tried[s] !in limbo
    ensures Inv(h, Demoted(t, s), limbo + {t.tried[s]})
    ensures Abs(Demoted(t, s)) == Abs(t).(tried := Abs(t).tried - {s})
  {
    hide Demoted, TriedIds, NewIds, NewOk, EntriesOk, RandomOk, TriedOk, AddrOk, Abs, SlotsOf;
    DemotedTried(h, t, s);
    DemotedNew(h, t, s);
    DemotedEntries(t, s, limbo);
    DemotedSame(t, s);
    DemotedRest(h, t, s);
  }

  ghost function Promoted(t: Tables, s: Slot, n: int): Tables
    requires n in t.info
  {
    t.(tried := t.tried[s := n], info := t.info[n := t.info[n].(inTried := true)], nTried := t.nTried + 1)
  }

  lemma PromotedSame(t: Tables, s: Slot, n: int)
    requires n in t.info
    ensures var u := Promoted(t, s, n);
            && u == t.(info := u.info, tried := t.tried[s := n], nTried := t.nTried + 1)
            && u.info.Keys == t.info.Keys
            && (forall m <- t.info :: u.info[m] == t.info[m].(inTried := u.info[m].inTried))
            && (forall m <- t.info :: u.info[m].inTried == (m == n || t.info[m].inTried))
  {
  }

  lemma PromotedTried(h: Hashes, t: Tables, s: Slot, n: int)
    requires TriedOk(h, t) && n in t.info && !t.info[n].inTried
    requires s == h.TriedSlot(t.key, t.info[n].addr.svc) && s !in t.tried
    ensures TriedOk(h, Promoted(t, s, n))
    ensures TriedIds(Promoted(t, s, n)) == TriedIds(t) + {n} && n !in TriedIds(t)
  {
  }

  lemma PromotedNew(h: Hashes, t: Tables, s: Slot, n: int)
    requires NewOk(h, t) && n in t.info && t.info[n].refCount == 0
    ensures NewOk(h, Promoted(t, s, n))
  {
    forall q | q in t.new_ ensures t.new_[q] != n {
      SlotsNonEmpty(t.new_, q);
    }
  }

  lemma PromotedEntries(t: Tables, s: Slot, n: int, limbo: set<int>)
    requires EntriesOk(t, limbo) && n in limbo && n in t.info && t.info[n].lastSuccess > 0
    ensures !t.info[n].inTried && t.info[n].refCount == 0
    ensures EntriesOk(Promoted(t, s, n), limbo - {n}) && NewIds(Promoted(t, s, n), limbo - {n}) == NewIds(t, limbo)
  {
    PromotedSame(t, s, n);
  }

  lemma {:induction false} PromotedRest(h: Hashes, t: Tables, s: Slot, n: int)
    requires RandomOk(t) && AddrOk(t) && TriedOk(h, t) && NewOk(h, t) && n in t.info
    ensures var u := Promoted(t, s, n);
            RandomOk(u) && AddrOk(u) && Abs(u) == Abs(t).(tried := Abs(t).tried[s := t.info[n].Ip()])
  {
    hide Promoted, TriedIds, NewIds, NewOk, EntriesOk, RandomOk, TriedOk, AddrOk, BookOf, Names, SlotsOf;
    var u := Promoted(t, s, n);
    PromotedSame(t, s, n);
    RandomSame(t, u);
    AddrSame(t, u);
    BookSame(t, u);
    NewNames(h, t);
    TriedNames(h, t);
    NamesSame(t.info, u.info, t.new_);
    NamesSame(t.info, u.info, t.tried);
    NamesPut(u.info, t.tried, s, n);
  }

  lemma PromotedKeeps(h: Hashes, t: Tables, s: Slot, n: int, limbo: set<int>)
    requires Inv(h, t, limbo)
    requires n in limbo && n in t.info && t.info[n].lastSuccess > 0
    requires s == h.TriedSlot(t.key, t.info[n].addr.svc) && s !in t.tried
    ensures Inv(h, Promoted(t, s, n), limbo - {n})
    ensures Abs(Promoted(t, s, n)) == Abs(t).(tried := Abs(t).tried[s := t.info[n].Ip()])
  {
    hide Promoted, TriedIds, NewIds, NewOk, EntriesOk, RandomOk, TriedOk, AddrOk, Abs, SlotsOf;
    PromotedEntries(t, s, n, limbo);
    PromotedTried(h, t, s, n);
    PromotedNew(h, t, s, n);
    PromotedSame(t, s, n);
    PromotedRest(h, t, s, n);
  }

  // ----- rewriting the descriptive fields of one entry

  /** Replaces what entry n says about its peer, keeping its service and its place in the tables. */
  ghost function Described(t: Tables, n: int, i: AddrInfo): Tables {
    t.(info := t.info[n := i])
  }

  lemma DescribedSame(t: Tables, n: int, i: AddrInfo)
    requires n in t.info
    ensures var u := Described(t, n, i);
            && u == t.(info := u.info) && u.info.Keys == t.info.Keys
            && (forall m <- t.info :: u.info[m] == if m == n then i else t.info[m])
  {
  }

  lemma DescribedEntries(t: Tables, n: int, i: AddrInfo, limbo: set<int>)
    requires EntriesOk(t, limbo) && n in t.info
    requires i.refCount == t.info[n].refCount && i.inTried == t.info[n].inTried
    requires i.lastTry >= 0 && i.lastSuccess >= 0 && (i.inTried ==> i.lastSuccess > 0)
    ensures EntriesOk(Described(t, n, i), limbo) && NewIds(Described(t, n, i), limbo) == NewIds(t, limbo)
  {
  }

  lemma DescribedBook(t: Tables, n: int, i: AddrInfo)
    requires AddrOk(t) && n in t.info && i.Ip() == t.info[n].Ip()
    ensures BookOf(Described(t, n, i).info, Described(t, n, i).addr) == BookOf(t.info, t.addr)[i.Ip() := PeerOf(i)]
  {
  }

  lemma {:induction false} DescribedAbs(h: Hashes, t: Tables, n: int, i: AddrInfo)
    requires AddrOk(t) && TriedOk(h, t) && NewOk(h, t) && n in t.info && i.Ip() == t.info[n].Ip()
    ensures Abs(Described(t, n, i)) == Abs(t).(book := Abs(t).book[i.Ip() := PeerOf(i)])
  {
    hide Described, TriedIds, NewOk, TriedOk, AddrOk, BookOf, Names, PeerOf, SlotsOf;
    var u := Described(t, n, i);
    DescribedSame(t, n, i);
    DescribedBook(t, n, i);
    NewNames(h, t);
    TriedNames(h, t);
    NamesSame(t.info, u.info, t.new_);
    NamesSame(t.info, u.info, t.tried);
  }

  lemma DescribedKeeps(h: Hashes, t: Tables, n: int, i: AddrInfo, limbo: set<int>)
    requires Inv(h, t, limbo) && n in t.info
    requires i.addr.svc == t.info[n].addr.svc && i.refCount == t.info[n].refCount
    requires i.inTried == t.info[n].inTried && i.randomPos == t.info[n].randomPos
    requires i.lastTry >= 0 && i.lastSuccess >= 0 && (i.inTried ==> i.lastSuccess > 0)
    ensures Inv(h, Described(t, n, i), limbo)
    ensures Abs(Described(t, n, i)) == Abs(t).(book := Abs(t).book[i.Ip() := PeerOf(i)])
  {
    hide Described, TriedIds, NewIds, NewOk, EntriesOk, RandomOk, TriedOk, AddrOk, Abs, SlotsOf;
    var u := Described(t, n, i);
    DescribedSame(t, n, i);
    DescribedEntries(t, n, i, limbo);
    RandomSame(t, u);
    AddrSame(t, u);
    TriedSame(h, t, u);
    NewSame(h, t, u);
    DescribedAbs(h, t, n, i);
  }

  /** Demoting, clearing the new slot and placing there amount to the specification's Evict. */
  lemma EvictSteps(h: Hashes, t: Tables, ts: Slot, q: Tables, us: Slot, limbo: set<int>)
    requires Inv(h, t, limbo) && ts in t.tried && t.tried[ts] in t.info
    requires var i := t.info[t.tried[ts]]; us == h.NewSlot(t.key, i.addr.svc, i.source)
    requires Inv(h, q, limbo + {t.tried[ts]}) && t.tried[ts] in q.info && q.info[t.tried[ts]].Ip() == t.info[t.tried[ts]].Ip()
    requires Abs(q) == ClearNew(Abs(Demoted(t, ts)), us)
    ensures Abs(Placed(q, us, t.tried[ts])) == Evict(h, Abs(t), ts)
  {
    hide RandomOk, AddrOk, TriedOk, NewOk, EntriesOk, TriedIds, NewIds, BookOf, Names, Demoted, Placed, ClearNew;
    var out := t.tried[ts];
    NamesAt(t.info, t.tried, ts);
    BookAt(t, out);
    DemotedKeeps(h, t, ts, limbo);
    PlacedAbs(h, q, us, out, limbo + {out});
  }

  /** What has become of the tables when the peer in tried slot ts was sent back to the new table, while
      entry n waits for that slot. */
  ghost predicate EvictedTo(h: Hashes, t: Tables, ts: Slot, n: int, u: Tables) {
    && Inv(h, u, {n}) && Abs(u) == Evict(h, Abs(t), ts)
    && ts !in u.tried && u.key == t.key
    && n in t.info && n in u.info && u.info[n] == t.info[n].(randomPos := u.info[n].randomPos)
  }

  /** After demoting and clearing, the evicted entry can take its new slot. */
  lemma {:induction false} EvictEnds(h: Hashes, t: Tables, ts: Slot, us: Slot, n: int)
    requires Inv(h, t, {n}) && ts in t.tried && t.tried[ts] in t.info
    requires var i := t.info[t.tried[ts]]; us == h.NewSlot(t.key, i.addr.svc, i.source)
    ensures var out, d := t.tried[ts], Demoted(t, ts);
            && Inv(h, d.(nNew := d.nNew - 0), {n} + {out}) && RandomOk(d) && (us in d.new_ ==> d.new_[us] in d.info)
            && us !in Cleared(d, us).new_ && out in Cleared(d, us).info && Cleared(d, us).info[out].refCount == 0
    ensures var out, q := t.tried[ts], Cleared(Demoted(t, ts), us);
            EvictedTo(h, t, ts, n, Placed(q, us, out).(nNew := q.nNew + 1))
  {
    hide Inv, Abs, RandomOk, Demoted, Cleared, Placed, Evict, ClearNew;
    var out, d := t.tried[ts], Demoted(t, ts);
    var limbo := {n} + {out};
    DemotedKeeps(h, t, ts, {n});
    DemotedSame(t, ts);
    assert d.(nNew := d.nNew - 0) == d;
    ClearedKeeps(h, d, us, limbo, 0);
    ClearedSame(d, us);
    var q := Cleared(d, us);
    assert q.(nNew := q.nNew - 0) == q;
    InLimbo(h, t, n, {n});
    InLimbo(h, q, out, limbo);
    InLimbo(h, q, n, limbo);
    EvictSteps(h, t, ts, q, us, {n});
    PlacedKeeps(h, q, us, out, limbo);
    assert limbo - {out} == {n};
    AbsRenumbered(Placed(q, us, out), q.nNew + 1);
    PlacedSame(q, us, out);
  }

  lemma InvId(h: Hashes, t: Tables, n: int, limbo: set<int>)
    requires Inv(h, t, limbo) && n in t.info
    ensures 0 <= n
  {
  }

  lemma InvEntry(h: Hashes, t: Tables, n: int)
    requires Inv(h, t, {}) && n in t.info
    ensures t.info[n].lastTry >= 0 && t.info[n].lastSuccess >= 0
    ensures t.info[n].inTried ==> t.info[n].lastSuccess > 0
    ensures 0 <= t.info[n].refCount <= NEW_BUCKETS_PER_ADDRESS
    ensures !t.info[n].inTried ==> t.info[n].refCount > 0
  {
    EntryTimes(t, n, {});
    EntryCount(t, n, {});
  }

  lemma InvNextId(h: Hashes, t: Tables, a: NetAddr)
    requires Inv(h, t, {})
    ensures t.idCount !in t.info && (a in t.addr <==> a in Abs(t).book)
  {
    NextId(t, {});
    NoEntry(t, a);
  }

  lemma InLimbo(h: Hashes, t: Tables, n: int, limbo: set<int>)
    requires Inv(h, t, limbo) && n in limbo
    ensures n in t.info && !t.info[n].inTried && t.info[n].refCount == 0
  {
    LimboEntry(t, n, limbo);
  }

  // ----- leaving every new bucket

  /** The new table after the buckets below `b` have been swept clean of entry n. */
  ghost function Swept(m: map<Slot, int>, n: int, b: int): map<Slot, int> {
    m - (set s | s in m && m[s] == n && s.bucket < b)
  }

  ghost function SweptTo(t: Tables, n: int, b: int): Tables
    requires n in t.info
  {
    var m := Swept(t.new_, n, b);
    t.(new_ := m, info := t.info[n := t.info[n].(refCount := |SlotsOf(m, n)|)])
  }

  lemma SweptMap(h: Hashes, t: Tables, n: int, b: int)
    requires NewOk(h, t) && n in t.info
    ensures var s := Slot(b, h.BucketPosition(t.key, true, b, t.info[n].addr.svc));
            var m := Swept(t.new_, n, b);
            Swept(t.new_, n, b + 1) == if s in m && m[s] == n then m - {s} else m
  {
    var pos := h.BucketPosition(t.key, true, b, t.info[n].addr.svc);
    forall s | s in t.new_ && t.new_[s] == n && s.bucket == b ensures s == Slot(b, pos) {
      assert s.pos == pos;
    }
  }

  lemma SweptStep(h: Hashes, t: Tables, n: int, b: int)
    requires NewOk(h, t) && n in t.info
    ensures var s := Slot(b, h.BucketPosition(t.key, true, b, t.info[n].addr.svc));
            var u := SweptTo(t, n, b);
            SweptTo(t, n, b + 1) == if s in u.new_ && u.new_[s] == n then Dropped(u, s) else u
  {
    hide NewOk, Swept;
    var s := Slot(b, h.BucketPosition(t.key, true, b, t.info[n].addr.svc));
    var m := Swept(t.new_, n, b);
    SweptMap(h, t, n, b);
    if s in m && m[s] == n {
      SlotsDrop(m, s, n);
    }
  }

  lemma SweptStart(h: Hashes, t: Tables, n: int)
    requires NewOk(h, t) && EntriesOk(t, {}) && n in t.info && !t.info[n].inTried
    ensures SweptTo(t, n, 0) == t && t.info[n].refCount > 0
  {
    assert Swept(t.new_, n, 0) == t.new_;
  }

  ghost predicate SweepInv(h: Hashes, u: Tables, n: int) {
    n in u.info && if u.info[n].refCount == 0 then Inv(h, u.(nNew := u.nNew - 1), {n}) else Inv(h, u, {})
  }

  /** The ids in limbo while entry n has no slot of the new table. */
  ghost function Waiting(t: Tables, n: int): set<int>
    requires n in t.info
  {
    if t.info[n].refCount == 0 then {n} else {}
  }

  /** A new entry has no slot yet, but is counted. */
  lemma {:induction false} AdmitEnds(h: Hashes, t: Tables, addr: Address, source: NetAddr)
    requires Inv(h, t, {}) && addr.svc.ip !in t.addr
    ensures var n, u := t.idCount, Created(t, addr, source).(nNew := t.nNew + 1);
            && SweepInv(h, u, n) && u.info[n].refCount == 0 && !u.info[n].inTried && u.info[n].Ip() == addr.svc.ip
            && Abs(u) == Abs(t).(book := Abs(t).book[addr.svc.ip := Peer(addr, source, 0, 0, 0)])
  {
    hide Inv, Abs;
    var n, c := t.idCount, Created(t, addr, source);
    CreatedKeeps(h, t, addr, source, {});
    AbsRenumbered(c, t.nNew + 1);
    assert {} + {n} == {n} && c.(nNew := t.nNew + 1).(nNew := t.nNew) == c;
  }

  lemma SweepCounts(h: Hashes, t: Tables, n: int)
    requires SweepInv(h, t, n)
    ensures n in t.info && Inv(h, t.(nNew := t.nNew - |Waiting(t, n)|), Waiting(t, n))
    ensures t.info[n].refCount != 0 ==> Inv(h, t, {})
  {
    hide Inv;
    assert t.info[n].refCount != 0 ==> t.(nNew := t.nNew - 0) == t;
  }

  /** Whether entry n may take slot s: it is free, or its holder is terrible, or has another slot while n
      has none. */
  ghost predicate MayEnter(t: Tables, s: Slot, n: int, now: int)
    requires n in t.info && (s in t.new_ ==> t.new_[s] in t.info)
  {
    s in t.new_ ==>
      var i := t.info[t.new_[s]];
      IsTerrible(PeerOf(i), now) || (i.refCount > 1 && t.info[n].refCount == 0)
  }

  /** What the specification of Enter says, read off the entries. */
  lemma {:induction false} EnterIs(h: Hashes, t: Tables, n: int, s: Slot, source: NetAddr, now: int)
    requires SweepInv(h, t, n) && s == h.NewSlot(t.key, t.info[n].addr.svc, source)
    ensures 0 <= n && (s in t.new_ ==> t.new_[s] in t.info && t.info[t.new_[s]].refCount > 0)
    ensures var p, a := Abs(t), t.info[n].Ip();
            && a in p.book
            && Enter(h, p, a, source, now)
               == if s in t.new_ && t.new_[s] == n then p
                  else if MayEnter(t, s, n, now) then
                    var q := ClearNew(p, s); q.(new_ := q.new_[s := a])
                  else if t.info[n].refCount == 0 then p.(book := p.book - {a})
                  else p
  {
    hide RandomOk, AddrOk, TriedOk, NewOk, EntriesOk, TriedIds, NewIds, BookOf, Names, Abs;
    hide ClearNew, IsTerrible, IsTried, Refs;
    SweepCounts(h, t, n);
    var limbo := Waiting(t, n);
    var less := t.(nNew := t.nNew - |limbo|);
    hide SweepInv;
    AbsRenumbered(t, less.nNew);
    EntryView(h, less, n, limbo);
    SlotView(h, less, s);
    HolderCounted(h, less, s);
    EntryId(less, n, limbo);
    if s in t.new_ { EntryView(h, less, t.new_[s], limbo); }
  }

  /** Where the entry may take the slot, clearing and placing do what the specification says. */
  lemma {:induction false} EnterInserts(h: Hashes, t: Tables, n: int, s: Slot)
    requires SweepInv(h, t, n) && !t.info[n].inTried && t.info[n].refCount < NEW_BUCKETS_PER_ADDRESS
    requires InNewTable(s) && s.pos == h.BucketPosition(t.key, true, s.bucket, t.info[n].addr.svc)
    requires s in t.new_ ==> t.new_[s] != n
    ensures RandomOk(t) && (s in t.new_ ==> t.new_[s] in t.info)
    ensures n in Cleared(t, s).info && Cleared(t, s).info[n].refCount == t.info[n].refCount && 0 <= n
    ensures var u := Placed(Cleared(t, s), s, n);
            && Inv(h, u, {})
            && Abs(u) == ClearNew(Abs(t), s).(new_ := ClearNew(Abs(t), s).new_[s := t.info[n].Ip()])
  {
    hide Inv, Abs, Cleared, Placed, RandomOk, ClearNew;
    SweepCounts(h, t, n);
    var limbo := Waiting(t, n);
    var k := |limbo|;
    ClearedKeeps(h, t, s, limbo, k);
    ClearedSame(t, s);
    var q := Cleared(t, s);
    var less := q.(nNew := q.nNew - k);
    PlacedKeeps(h, less, s, n, limbo);
    PlacedAbs(h, less, s, n, limbo);
    PlacedRenumbered(q, s, n, less.nNew);
    PlacedSame(q, s, n);
    AbsRenumbered(q, less.nNew);
    AbsRenumbered(Placed(q, s, n), less.nNew);
    InvId(h, less, n, limbo);
    assert limbo - {n} == {};
    assert Placed(q, s, n) == if n in limbo then Placed(less, s, n).(nNew := less.nNew + 1) else Placed(less, s, n);
  }

  lemma {:induction false} SweptKeeps(h: Hashes, t: Tables, n: int, b: nat)
    requires Inv(h, t, {}) && n in t.info && !t.info[n].inTried
    ensures SweepInv(h, SweptTo(t, n, b), n)
  {
    hide Dropped, SweptTo, TriedIds, NewIds, NewOk, EntriesOk, RandomOk, TriedOk, AddrOk;
    if b == 0 {
      SweptStart(h, t, n);
    } else {
      SweptKeeps(h, t, n, b - 1);
      SweptStep(h, t, n, b - 1);
      var u := SweptTo(t, n, b - 1);
      var s := Slot(b - 1, h.BucketPosition(t.key, true, b - 1, t.info[n].addr.svc));
      if s in u.new_ && u.new_[s] == n {
        if u.info[n].refCount == 0 {
          Renumbered(h, u, u.(nNew := u.nNew - 1), {n});
          SlotsNonEmpty(u.new_, s);
          NewCount(h, u, n);
        } else {
          DroppedKeeps(h, u, s, {});
          DroppedSame(u, s);
        }
      }
    }
  }

  lemma NewCount(h: Hashes, t: Tables, n: int)
    requires NewOk(h, t) && n in t.info
    ensures t.info[n].refCount == |SlotsOf(t.new_, n)|
  {
  }

  lemma SweptNames(h: Hashes, t: Tables, n: int)
    requires NewOk(h, t) && AddrOk(t) && n in t.info
    ensures var names := Names(t.info, t.new_);
            Names(t.info, Swept(t.new_, n, NEW_BUCKET_COUNT))
            == names - SlotsOf(names, t.info[n].Ip())
  {
    var names := Names(t.info, t.new_);
    forall s | s in t.new_
      ensures InNewTable(s) && s in names && (names[s] == t.info[n].Ip() <==> t.new_[s] == n)
    {
      var k := t.new_[s];
      assert k in t.info;
      NamesAt(t.info, t.new_, s);
      assert t.addr[t.info[k].Ip()] == k && t.addr[t.info[n].Ip()] == n;
    }
    hide NewOk, AddrOk;
  }

  /** After all buckets, nothing refers to the entry any more. */
  lemma SweptAll(h: Hashes, t: Tables, n: int)
    requires Inv(h, t, {}) && n in t.info && !t.info[n].inTried
    ensures var u := SweptTo(t, n, NEW_BUCKET_COUNT);
            && u.info[n].refCount == 0
            && u.info[n] == t.info[n].(refCount := 0)
            && Inv(h, u.(nNew := u.nNew - 1), {n})
            && Abs(u) == Abs(t).(new_ := Abs(t).new_ - SlotsOf(Abs(t).new_, t.info[n].Ip()))
  {
    hide TriedIds, NewIds, NewOk, EntriesOk, RandomOk, TriedOk, AddrOk;
    var u := SweptTo(t, n, NEW_BUCKET_COUNT);
    SweptKeeps(h, t, n, NEW_BUCKET_COUNT);
    SweptEmpty(h, t, n);
    BookSame(t, u);
    NewNames(h, t);
    TriedNames(h, t);
    NamesSame(t.info, u.info, t.tried);
    NamesSame(t.info, u.info, Swept(t.new_, n, NEW_BUCKET_COUNT));
    SweptNames(h, t, n);
  }

  lemma SweptEmpty(h: Hashes, t: Tables, n: int)
    requires NewOk(h, t)
    ensures SlotsOf(Swept(t.new_, n, NEW_BUCKET_COUNT), n) == {}
  {
    assert forall s <- t.new_ :: InNewTable(s);
  }

  // ----- the random order

  lemma OrderListsBook(h: Hashes, t: Tables, limbo: set<int>)
    requires Inv(h, t, limbo)
    ensures ListsOnce(Order(t), Abs(t).book.Keys)
  {
    hide TriedOk, NewOk, EntriesOk, TriedIds, NewIds;
    forall k | 0 <= k < |t.random| ensures Order(t)[k] in Abs(t).book {
      var n := t.random[k];
      assert n in t.info;
      BookAt(t, n);
    }
    forall a | a in Abs(t).book ensures exists k :: 0 <= k < |Order(t)| && Order(t)[k] == a {
      NoEntry(t, a);
      var n := t.addr[a];
      assert n in t.info;
      assert Order(t)[t.info[n].randomPos] == a;
    }
    forall j, k | 0 <= j < k < |t.random| ensures Order(t)[j] != Order(t)[k] {
      var m, n := t.random[j], t.random[k];
      assert t.info[m].randomPos == j && t.info[n].randomPos == k;
      assert t.addr[t.info[m].Ip()] == m && t.addr[t.info[n].Ip()] == n;
    }
  }

  lemma {:induction false} ListsOnceSize(names: seq<NetAddr>, s: set<NetAddr>)
    requires ListsOnce(names, s)
    ensures |names| == |s|
  {
    if names == [] {
      assert s == {} by { if a :| a in s { assert false; } }
    } else {
      var n := |names| - 1;
      var rest := names[..n];
      forall a | a in s - {names[n]} ensures exists k :: 0 <= k < |rest| && rest[k] == a {
        var k :| 0 <= k < |names| && names[k] == a;
        assert rest[k] == a;
      }
      ListsOnceSize(rest, s - {names[n]});
    }
  }

  lemma OrderStep(t: Tables, n: int)
    requires 0 <= n < |t.random| && t.random[n] in t.info
    ensures |Order(t)| == |t.random| && Order(t)[..n + 1] == Order(t)[..n] + [t.info[t.random[n]].Ip()]
  {
    assert Order(t)[..n + 1] == Order(t)[..n] + [Order(t)[n]];
  }

  /** One more place of the order adds the peer there, if it is one of quality. */
  lemma QualityStep(h: Hashes, t: Tables, n: int, now: int)
    requires Inv(h, t, {}) && 0 <= n < |t.random|
    ensures t.random[n] in t.info && |Order(t)| == |t.random|
    ensures var p := PeerOf(t.info[t.random[n]]);
            Quality(Abs(t).book, Order(t)[..n + 1], now)
            == Quality(Abs(t).book, Order(t)[..n], now) + if IsTerrible(p, now) then [] else [p.addr]
  {
    hide AddrOk, TriedOk, NewOk, EntriesOk, TriedIds, NewIds, BookOf, Names, Abs, IsTerrible, RandomOk;
    RandomEntry(t, n);
    OrderStep(t, n);
    EntryView(h, t, t.random[n], {});
    var names := Order(t)[..n + 1];
    assert names[..|names| - 1] == Order(t)[..n] && names[|names| - 1] == t.info[t.random[n]].Ip();
  }

  lemma OrderSwapped(t: Tables, i: int, j: int)
    requires RandomOk(t) && 0 <= i <= j < |t.random|
    ensures |Order(Swapped(t, i, j))| == |Order(t)|
    ensures Order(Swapped(t, i, j))[..i] == Order(t)[..i]
  {
    var u := Swapped(t, i, j);
    SwappedSame(t, i, j);
    forall k | 0 <= k < i ensures Order(u)[k] == Order(t)[k] {
      var n := t.random[k];
      assert u.random[k] == n && n in t.info;
    }
  }

  lemma {:induction false} QualitySplit(book: map<NetAddr, Peer>, a: seq<NetAddr>, b: seq<NetAddr>, now: int)
    ensures Quality(book, a + b, now) == Quality(book, a, now) + Quality(book, b, now)
  {
    if b == [] {
      assert a + b == a;
    } else {
      var n := |b| - 1;
      assert (a + b)[..|a + b| - 1] == a + b[..n];
      QualitySplit(book, a, b[..n], now);
    }
  }

  ghost predicate AllDistinct(q: seq<Address>) {
    forall j, k | 0 <= j < k < |q| :: q[j].svc.ip != q[k].svc.ip
  }

  /** A prefix of the order that already yields enough is as good as all of it. */
  lemma EnoughOfThem(book: map<NetAddr, Peer>, names: seq<NetAddr>, n: nat, size: nat, now: int)
    requires n <= |names|
    requires |Quality(book, names[..n], now)| <= size
    requires n == |names| || |Quality(book, names[..n], now)| == size
    ensures var all := Quality(book, names, now);
            Quality(book, names[..n], now) == if size < |all| then all[..size] else all
  {
    assert names == names[..n] + names[n..];
    QualitySplit(book, names[..n], names[n..], now);
    assert n == |names| ==> names[..n] == names;
  }

  /** The peers of the book are filed under their own addresses. */
  lemma BookIps(t: Tables)
    requires AddrOk(t)
    ensures forall a <- Abs(t).book :: Abs(t).book[a].addr.svc.ip == a
  {
    forall a | a in Abs(t).book ensures Abs(t).book[a].addr.svc.ip == a {
      var n := t.addr[a];
      assert n in t.info;
    }
  }

  lemma InvOrder(h: Hashes, t: Tables)
    requires Inv(h, t, {})
    ensures RandomOk(t) && ListsOnce(Order(t), Abs(t).book.Keys)
    ensures forall a <- Abs(t).book :: Abs(t).book[a].addr.svc.ip == a
  {
    hide ListsOnce, Order, Abs, RandomOk, AddrOk;
    OrderListsBook(h, t, {});
    BookIps(t);
  }

  lemma QualityNone(book: map<NetAddr, Peer>, names: seq<NetAddr>, now: int)
    ensures Quality(book, names[..0], now) == []
  {
  }

  /** At most `size` of the peers of quality, as the order lists them: each a record of the book, none
      twice, and all of them unless the size cuts. */
  lemma {:induction false} QualityCut(book: map<NetAddr, Peer>, names: seq<NetAddr>, now: int, size: nat)
    requires ListsOnce(names, book.Keys)
    requires forall a <- book :: book[a].addr.svc.ip == a
    ensures var all := Quality(book, names, now);
            var out := if size < |all| then all[..size] else all;
            && (forall q <- out :: q.svc.ip in book && book[q.svc.ip].addr == q && !IsTerrible(book[q.svc.ip], now))
            && AllDistinct(out) && |out| <= size
            && (|out| == size || forall a <- book | !IsTerrible(book[a], now) :: book[a].addr in out)
  {
    QualityLists(book, names, now);
    var all := Quality(book, names, now);
    hide IsTerrible, ListsOnce, Quality;
    if size < |all| {
      forall q | q in all[..size] ensures q in all {}
    }
  }

  /** Every peer of quality is listed, none twice, and none of the others. */
  lemma {:induction false} QualityLists(book: map<NetAddr, Peer>, names: seq<NetAddr>, now: int)
    requires ListsOnce(names, book.Keys)
    requires forall a <- book :: book[a].addr.svc.ip == a
    ensures forall q <- Quality(book, names, now) ::
              q.svc.ip in book && book[q.svc.ip].addr == q && !IsTerrible(book[q.svc.ip], now)
    ensures forall a <- book | !IsTerrible(book[a], now) :: book[a].addr in Quality(book, names, now)
    ensures AllDistinct(Quality(book, names, now))
  {
    QualityFrom(book, names, now);
  }

  lemma AppendDistinct(q: seq<Address>, all: seq<Address>)
    requires AllDistinct(q)
    requires all == q || (|all| == |q| + 1 && all[..|q|] == q && forall j | 0 <= j < |q| :: q[j].svc.ip != all[|q|].svc.ip)
    ensures AllDistinct(all)
  {
    assert forall j | 0 <= j < |q| :: all[j] == q[j];
  }

  lemma {:induction false} QualityFrom(book: map<NetAddr, Peer>, names: seq<NetAddr>, now: int)
    requires forall k | 0 <= k < |names| :: names[k] in book
    requires forall j, k | 0 <= j < k < |names| :: names[j] != names[k]
    requires forall a <- book :: book[a].addr.svc.ip == a
    ensures forall q <- Quality(book, names, now) ::
              q.svc.ip in names && book[q.svc.ip].addr == q && !IsTerrible(book[q.svc.ip], now)
    ensures forall a <- names | !IsTerrible(book[a], now) :: book[a].addr in Quality(book, names, now)
    ensures AllDistinct(Quality(book, names, now))
  {
    if names != [] {
      var n := |names| - 1;
      var rest, last := names[..n], names[n];
      QualityFrom(book, rest, now);
      assert names == rest + [last];
      var q := Quality(book, rest, now);
      forall j | 0 <= j < |q| ensures q[j].svc.ip != last {
        assert q[j] in q;
        var k :| 0 <= k < |rest| && rest[k] == q[j].svc.ip;
        assert names[k] != names[n];
      }
      assert book[last].addr.svc.ip == last;
      var all := Quality(book, names, now);
      assert all == q + if IsTerrible(book[last], now) then [] else [book[last].addr];
      AppendDistinct(q, all);
    }
  }
}

/** Loading a saved address manager into a new one, and the round trip. */
module AddrManLoad {
  import opened AddrManTypes
  import opened AddrManSpec
  import opened AddrManSteps
  import opened AddrManStream
  import opened AddrManPeers
  import opened Objects = AddrMan

  /** What a manager must be for its stream to load: every manager in service is. */
  ghost predicate Loadable(h: Hashes, p: Peers) {
    && p.key != 0 && WellPlaced(h, p, {})
    && (forall a <- p.book :: p.book[a].lastSuccess >= 0 && (IsTried(p, a) ==> p.book[a].lastSuccess > 0))
  }

  lemma ConsistentIsLoadable(h: Hashes, t: Tables)
    requires Inv(h, t, {}) && WellPlaced(h, Abs(t), {})
    ensures Loadable(h, Abs(t))
  {
    var p := Abs(t);
    hide RandomOk, TriedOk, NewOk, TriedIds, NewIds, BookOf, Names, WellPlaced, IsTried, Refs, Abs;
    forall a | a in p.book ensures p.book[a].lastSuccess >= 0 && (IsTried(p, a) ==> p.book[a].lastSuccess > 0) {
      NoEntry(t, a);
      var n := t.addr[a];
      assert n in t.info;
      EntryView(h, t, n, {});
      EntryTimes(t, n, {});
    }
    EntryKey(t);
  }

  lemma EntryKey(t: Tables)
    ensures Abs(t).key == t.key
  {
  }

  // ----- the lists, read back one peer at a time

  ghost function BookPart(book: map<NetAddr, Peer>, names: seq<NetAddr>): map<NetAddr, Peer> {
    if names == [] then map[]
    else
      var last := names[|names| - 1];
      var rest := BookPart(book, names[..|names| - 1]);
      if last in book then rest[last := Wire(book[last])] else rest
  }

  lemma {:induction false} BookPartHas(book: map<NetAddr, Peer>, names: seq<NetAddr>)
    ensures forall a :: a in BookPart(book, names) <==> a in names && a in book
    ensures forall a <- BookPart(book, names) :: BookPart(book, names)[a] == Wire(book[a])
  {
    if names != [] {
      var n := |names| - 1;
      BookPartHas(book, names[..n]);
      assert names == names[..n] + [names[n]];
    }
  }

  ghost function TriedPart(h: Hashes, p: Peers, names: seq<NetAddr>): map<Slot, NetAddr> {
    if names == [] then map[]
    else
      var last := names[|names| - 1];
      var rest := TriedPart(h, p, names[..|names| - 1]);
      if last in p.book then rest[h.TriedSlot(p.key, p.book[last].addr.svc) := last] else rest
  }

  lemma {:induction false} TriedPartHas(h: Hashes, p: Peers, names: seq<NetAddr>)
    requires forall a <- names :: a in p.book
    ensures forall s <- TriedPart(h, p, names) ::
              var a := TriedPart(h, p, names)[s]; a in names && s == h.TriedSlot(p.key, p.book[a].addr.svc)
    ensures forall a <- names :: h.TriedSlot(p.key, p.book[a].addr.svc) in TriedPart(h, p, names)
  {
    if names != [] {
      var n := |names| - 1;
      TriedPartHas(h, p, names[..n]);
      assert names == names[..n] + [names[n]];
    }
  }

  lemma TriedHome(h: Hashes, p: Peers, a: NetAddr)
    requires WellPlaced(h, p, {}) && a in p.book
    ensures var s := h.TriedSlot(p.key, p.book[a].addr.svc);
            IsTried(p, a) <==> s in p.tried && p.tried[s] == a
  {
    var s := h.TriedSlot(p.key, p.book[a].addr.svc);
    if IsTried(p, a) {
      var q :| q in SlotsOf(p.tried, a);
      assert p.tried[q] == a;
    }
    if s in p.tried && p.tried[s] == a {
      assert s in SlotsOf(p.tried, a);
    }
  }

  /** The tried slot of the next listed peer is still free. */
  lemma NextTriedFree(h: Hashes, p: Peers, trieds: seq<NetAddr>, n: nat)
    requires WellPlaced(h, p, {}) && n < |trieds|
    requires ListsOnce(trieds, set a | a in p.book && IsTried(p, a))
    ensures trieds[n] in p.book && IsTried(p, trieds[n])
    ensures h.TriedSlot(p.key, p.book[trieds[n]].addr.svc) !in TriedPart(h, p, trieds[..n])
  {
    var a := trieds[n];
    var s := h.TriedSlot(p.key, p.book[a].addr.svc);
    assert forall k | 0 <= k < n :: trieds[k] in p.book;
    TriedPartHas(h, p, trieds[..n]);
    TriedHome(h, p, a);
    forall b | b in trieds[..n] ensures b != a && h.TriedSlot(p.key, p.book[b].addr.svc) != s {
      var k :| 0 <= k < n && trieds[k] == b;
      TriedHome(h, p, b);
    }
  }

  lemma ListedNames(p: Peers, news: seq<NetAddr>, trieds: seq<NetAddr>)
    requires Listed(p, news, trieds)
    ensures forall a :: a in news + trieds <==> a in p.book
    ensures forall a :: a in trieds <==> a in p.book && IsTried(p, a)
    ensures forall a :: a in news <==> a in p.book && !IsTried(p, a)
  {
    var n, t := (set a | a in p.book && !IsTried(p, a)), (set a | a in p.book && IsTried(p, a));
    hide ListsOnce, IsTried;
    ListsOnceHas(news, n);
    ListsOnceHas(trieds, t);
    forall a ensures a in news + trieds <==> a in p.book {
      assert a in n + t <==> a in p.book;
    }
  }

  lemma ListsOnceHas(names: seq<NetAddr>, s: set<NetAddr>)
    requires ListsOnce(names, s)
    ensures forall a :: a in names <==> a in s
  {
  }

  /** Both lists together rebuild the book. */
  lemma BookRebuilt(p: Peers, news: seq<NetAddr>, trieds: seq<NetAddr>)
    requires Listed(p, news, trieds)
    ensures BookPart(p.book, news + trieds) == Forget(p).book
  {
    ListedNames(p, news, trieds);
    BookPartHas(p.book, news + trieds);
    assert BookPart(p.book, news + trieds).Keys == p.book.Keys;
  }

  /** The second list rebuilds the tried table. */
  lemma TriedRebuilt(h: Hashes, p: Peers, news: seq<NetAddr>, trieds: seq<NetAddr>)
    requires WellPlaced(h, p, {}) && Listed(p, news, trieds)
    ensures TriedPart(h, p, trieds) == p.tried
  {
    hide Listed, IsTried, WellPlaced, TriedPart;
    ListedNames(p, news, trieds);
    TriedPartHas(h, p, trieds);
    var m := TriedPart(h, p, trieds);
    forall s | s in m ensures s in p.tried && p.tried[s] == m[s] {
      TriedHome(h, p, m[s]);
    }
    forall s | s in p.tried ensures s in m {
      HomeListed(h, p, s);
    }
    assert m.Keys == p.tried.Keys;
  }

  lemma HomeListed(h: Hashes, p: Peers, s: Slot)
    requires WellPlaced(h, p, {}) && s in p.tried
    ensures var a := p.tried[s]; a in p.book && IsTried(p, a) && s == h.TriedSlot(p.key, p.book[a].addr.svc)
  {
    assert s in SlotsOf(p.tried, p.tried[s]);
  }

  // ----- one entry read back

  /** An entry as the loader first makes it: it counts as the next id, and nothing refers to it yet. */
  ghost function Loaded(t: Tables, w: Peer): Tables {
    t.(idCount := t.idCount + 1,
       info := t.info[t.idCount := AddrInfo(w.addr, w.source, w.lastSuccess, w.lastTry, w.attempts, 0, false, |t.random|)],
       addr := t.addr[w.addr.svc.ip := t.idCount],
       random := t.random + [t.idCount])
  }

  lemma LoadedKeeps(h: Hashes, t: Tables, w: Peer, limbo: set<int>)
    requires Inv(h, t, limbo) && w.addr.svc.ip !in Abs(t).book
    requires w.lastTry >= 0 && w.lastSuccess >= 0
    ensures Inv(h, Loaded(t, w), limbo + {t.idCount})
    ensures Abs(Loaded(t, w)) == Abs(t).(book := Abs(t).book[w.addr.svc.ip := w])
  {
    hide RandomOk, AddrOk, TriedOk, NewOk, EntriesOk, TriedIds, NewIds, BookOf, Names, Abs;
    NoEntry(t, w.addr.svc.ip);
    NextId(t, limbo);
    CreatedKeeps(h, t, w.addr, w.source, limbo);
    var u := Created(t, w.addr, w.source);
    var i := AddrInfo(w.addr, w.source, w.lastSuccess, w.lastTry, w.attempts, 0, false, |t.random|);
    DescribedKeeps(h, u, t.idCount, i, limbo + {t.idCount});
    assert Loaded(t, w) == Described(u, t.idCount, i);
  }

  // ----- the new list

  /** The ids below n. */
  ghost function Below(n: nat): set<int> {
    if n == 0 then {} else Below(n - 1) + {n - 1}
  }

  ghost predicate Named(info: map<int, AddrInfo>, names: seq<NetAddr>, n: nat)
    requires n <= |names|
  {
    forall k | 0 <= k < n :: k in info && info[k].Ip() == names[k]
  }

  /** The tables when n peers of the new list have been read. */
  ghost predicate NewRead(h: Hashes, t: Tables, p: Peers, news: seq<NetAddr>, n: nat)
    requires n <= |news|
  {
    && t.idCount == n && Inv(h, t, Below(n)) && Named(t.info, news, n)
    && Abs(t) == Peers(p.key, BookPart(p.book, news[..n]), map[], map[])
  }

  lemma BookPartStep(book: map<NetAddr, Peer>, names: seq<NetAddr>, n: nat)
    requires n < |names| && names[n] in book
    ensures BookPart(book, names[..n + 1]) == BookPart(book, names[..n])[names[n] := Wire(book[names[n]])]
  {
    assert names[..n + 1][..n] == names[..n];
  }

  lemma NextListed(book: map<NetAddr, Peer>, names: seq<NetAddr>, s: set<NetAddr>, n: nat)
    requires ListsOnce(names, s) && s <= book.Keys && n < |names|
    ensures names[n] in book && names[n] !in BookPart(book, names[..n])
  {
    BookPartHas(book, names[..n]);
  }

  lemma NewReadStep(h: Hashes, t: Tables, p: Peers, news: seq<NetAddr>, trieds: seq<NetAddr>, n: nat)
    requires Loadable(h, p) && Listed(p, news, trieds) && n < |news| && NewRead(h, t, p, news, n)
    ensures news[n] in p.book && NewRead(h, Loaded(t, Wire(p.book[news[n]])), p, news, n + 1)
  {
    hide Inv, Abs, IsTried;
    NextListed(p.book, news, (set a | a in p.book && !IsTried(p, a)), n);
    LoadedKeeps(h, t, Wire(p.book[news[n]]), Below(n));
    assert Below(n) + {n} == Below(n + 1);
    BookPartStep(p.book, news, n);
  }

  /** Puts one peer read from the stream under the given id, in no table yet. */
  method PutEntry(m: AddrMan, id: nat, w: Peer, tried: bool)
    requires w.lastTry == 0
    modifies m`mapInfo, m`mapAddr, m`vRandom
    ensures var u := Loaded(old(m.Now()).(idCount := id), w);
            m.Now().(idCount := id + 1) == u.(info := u.info[id := u.info[id].(inTried := tried)])
  {
    m.mapInfo := m.mapInfo[id := AddrInfo(w.addr, w.source, w.lastSuccess, 0, w.attempts, 0, tried, |m.vRandom|)];
    m.mapAddr := m.mapAddr[w.addr.svc.ip := id];
    m.vRandom := m.vRandom + [id];
  }

  lemma LoadedRenumbered(t: Tables, w: Peer, nNew: int, nTried: int)
    ensures Loaded(t.(nNew := nNew, nTried := nTried), w) == Loaded(t, w).(nNew := nNew, nTried := nTried)
    ensures var u := Loaded(t, w); u.(info := u.info[t.idCount := u.info[t.idCount].(inTried := false)]) == u
  {
  }

  method ReadNews(m: AddrMan, s: seq<Token>, start: nat, ghost p: Peers, ghost news: seq<NetAddr>, ghost trieds: seq<NetAddr>)
    returns (at: nat)
    requires m.Shape() && Loadable(m.h, p) && Listed(p, news, trieds)
    requires NewRead(m.h, m.Now().(idCount := 0, nNew := 0, nTried := 0), p, news, 0)
    requires m.nNew == |news|
    requires start + |news| <= |s| && s[start..start + |news|] == Infos(p.book, news)
    modifies m`mapInfo, m`mapAddr, m`vRandom
    ensures NewRead(m.h, m.Now().(idCount := |news|, nNew := 0, nTried := 0), p, news, |news|)
    ensures at == start + |news|
  {
    hide NewRead, Loaded, Listed, Loadable;
    at := start;
    for n := 0 to m.nNew
      invariant at == start + n
      invariant NewRead(m.h, m.Now().(idCount := n, nNew := 0, nTried := 0), p, news, n)
    {
      ghost var t := m.Now().(idCount := n, nNew := 0, nTried := 0);
      NewReadStep(m.h, t, p, news, trieds, n);
      assert s[at] == Infos(p.book, news)[n];
      var w := s[at].peer;
      LoadedRenumbered(m.Now().(idCount := n), w, 0, 0);
      PutEntry(m, n, w, false);
      at := at + 1;
    }
  }

  // ----- the tried list

  /** The tables when the whole new list and n peers of the tried list have been read. */
  ghost predicate TriedRead(h: Hashes, t: Tables, p: Peers, news: seq<NetAddr>, trieds: seq<NetAddr>, n: nat)
    requires n <= |trieds|
  {
    && t.idCount == |news| + n && Inv(h, t, Below(|news|)) && Named(t.info, news, |news|)
    && Abs(t) == Peers(p.key, BookPart(p.book, news + trieds[..n]), map[], TriedPart(h, p, trieds[..n]))
  }

  lemma NoneTriedYet(h: Hashes, t: Tables, p: Peers, news: seq<NetAddr>, trieds: seq<NetAddr>)
    requires NewRead(h, t, p, news, |news|)
    ensures TriedRead(h, t, p, news, trieds, 0)
  {
    assert news[..|news|] == news && news + trieds[..0] == news;
  }

  lemma NextTriedNew(p: Peers, news: seq<NetAddr>, trieds: seq<NetAddr>, n: nat)
    requires Listed(p, news, trieds) && n < |trieds|
    ensures trieds[n] in p.book && IsTried(p, trieds[n]) && trieds[n] !in BookPart(p.book, news + trieds[..n])
  {
    ListedNames(p, news, trieds);
    assert trieds[n] in trieds;
    hide IsTried;
    BookPartHas(p.book, news + trieds[..n]);
    assert trieds[n] !in trieds[..n] by {
      assert forall j | 0 <= j < n :: trieds[j] != trieds[n];
    }
  }

  lemma BelowHas(n: nat, k: int)
    ensures k in Below(n) <==> 0 <= k < n
  {
  }

  lemma TriedSlotView(h: Hashes, t: Tables, s: Slot, limbo: set<int>)
    requires Inv(h, t, limbo)
    ensures s in t.tried <==> s in Abs(t).tried
  {
    NamesAt(t.info, t.tried, s);
    if s in t.tried {
      var k := t.tried[s];
      assert k in t.info;
    }
  }

  lemma PartsStep(h: Hashes, p: Peers, news: seq<NetAddr>, trieds: seq<NetAddr>, n: nat)
    requires n < |trieds| && trieds[n] in p.book
    ensures var a := trieds[n];
            && BookPart(p.book, news + trieds[..n + 1]) == BookPart(p.book, news + trieds[..n])[a := Wire(p.book[a])]
            && TriedPart(h, p, trieds[..n + 1])
               == TriedPart(h, p, trieds[..n])[h.TriedSlot(p.key, p.book[a].addr.svc) := a]
  {
    var names := news + trieds[..n + 1];
    assert names[..|names| - 1] == news + trieds[..n];
    assert trieds[..n + 1][..n] == trieds[..n];
  }

  /** An entry read straight into its free tried slot. */
  lemma LoadedTried(h: Hashes, t: Tables, w: Peer, s: Slot, limbo: set<int>)
    requires Inv(h, t, limbo) && w.addr.svc.ip !in Abs(t).book && t.idCount !in limbo
    requires w.lastTry >= 0 && w.lastSuccess > 0
    requires s == h.TriedSlot(t.key, w.addr.svc) && s !in t.tried
    ensures var u := Promoted(Loaded(t, w), s, t.idCount);
            && Inv(h, u, limbo) && u.idCount == t.idCount + 1
            && Abs(u) == Abs(t).(book := Abs(t).book[w.addr.svc.ip := w], tried := Abs(t).tried[s := w.addr.svc.ip])
            && (forall n <- t.info | n != t.idCount :: n in u.info && u.info[n] == t.info[n])
  {
    hide Inv, Abs;
    LoadedKeeps(h, t, w, limbo);
    var u := Loaded(t, w);
    PromotedKeeps(h, u, s, t.idCount, limbo + {t.idCount});
    assert limbo + {t.idCount} - {t.idCount} == limbo;
    PromotedSame(u, s, t.idCount);
  }

  lemma TriedReadStep(h: Hashes, t: Tables, p: Peers, news: seq<NetAddr>, trieds: seq<NetAddr>, n: nat)
    requires Loadable(h, p) && Listed(p, news, trieds) && n < |trieds| && TriedRead(h, t, p, news, trieds, n)
    ensures trieds[n] in p.book && t.idCount >= 0
    ensures var w := Wire(p.book[trieds[n]]);
            var s := h.TriedSlot(p.key, w.addr.svc);
            && t.key == p.key && s !in t.tried
            && TriedRead(h, Promoted(Loaded(t, w), s, t.idCount), p, news, trieds, n + 1)
  {
    hide Inv, Abs, Listed, Loadable, Promoted, Loaded, TriedPart, BookPart;
    NextTried(h, p, news, trieds, n);
    PartsStep(h, p, news, trieds, n);
    var w := Wire(p.book[trieds[n]]);
    var s := h.TriedSlot(p.key, w.addr.svc);
    EntryKey(t);
    TriedSlotView(h, t, s, Below(|news|));
    BelowHas(|news|, t.idCount);
    LoadedTried(h, t, w, s, Below(|news|));
  }

  lemma NextTried(h: Hashes, p: Peers, news: seq<NetAddr>, trieds: seq<NetAddr>, n: nat)
    requires Loadable(h, p) && Listed(p, news, trieds) && n < |trieds|
    ensures var a := trieds[n];
            && a in p.book && p.book[a].addr.svc.ip == a && p.book[a].lastSuccess > 0
            && a !in BookPart(p.book, news + trieds[..n])
            && h.TriedSlot(p.key, p.book[a].addr.svc) !in TriedPart(h, p, trieds[..n])
  {
    NextTriedNew(p, news, trieds, n);
    NextTriedFree(h, p, trieds, n);
  }

  method ReadTrieds(m: AddrMan, s: seq<Token>, start: nat, ghost p: Peers, ghost news: seq<NetAddr>, ghost trieds: seq<NetAddr>)
    returns (at: nat, nLost: int)
    requires m.Shape() && Loadable(m.h, p) && Listed(p, news, trieds)
    requires TriedRead(m.h, m.Now().(nNew := 0, nTried := 0), p, news, trieds, 0)
    requires m.nTried == |trieds|
    requires start + |trieds| <= |s| && s[start..start + |trieds|] == Infos(p.book, trieds)
    modifies m`mapInfo, m`mapAddr, m`vRandom, m`nIdCount, m.vvTried
    ensures TriedRead(m.h, m.Now().(nNew := 0), p, news, trieds, |trieds|)
    ensures at == start + |trieds| && nLost == 0
  {
    hide TriedRead, Loaded, Listed, Loadable;
    at, nLost := start, 0;
    for n := 0 to m.nTried
      invariant at == start + n && nLost == 0
      invariant TriedRead(m.h, m.Now().(nNew := 0, nTried := n), p, news, trieds, n)
    {
      ghost var t := m.Now().(nNew := 0, nTried := n);
      TriedReadStep(m.h, t, p, news, trieds, n);
      assert s[at] == Infos(p.book, trieds)[n];
      var w := s[at].peer;
      var kb := m.h.TriedBucket(m.nKey, w.addr.svc);
      var kpos := m.h.BucketPosition(m.nKey, false, kb, w.addr.svc);
      if m.vvTried[kb, kpos] == -1 {
        LoadedRenumbered(m.Now(), w, 0, n);
        PutEntry(m, m.nIdCount, w, true);
        m.SetTried(kb, kpos, m.nIdCount);
        m.nIdCount := m.nIdCount + 1;
        assert m.Now().(nNew := 0, nTried := n + 1) == Promoted(Loaded(t, w), Slot(kb, kpos), t.idCount);
      } else {
        nLost := nLost + 1;
      }
      at := at + 1;
    }
  }

  // ----- the slots of the new table

  /** The tables when both lists and the slots before position i of bucket b have been read; `limbo`
      are the entries still without a slot. */
  ghost predicate SlotsRead(h: Hashes, t: Tables, p: Peers, news: seq<NetAddr>, b: int, i: int, limbo: set<int>) {
    && Inv(h, t, limbo) && limbo <= Below(|news|) && Named(t.info, news, |news|)
    && Abs(t) == Peers(p.key, Forget(p).book, Done(p.new_, b, i), p.tried)
  }

  lemma {:induction false} BelowSize(n: nat)
    ensures |Below(n)| == n
  {
    if n > 0 {
      BelowSize(n - 1);
      BelowHas(n - 1, n - 1);
    }
  }

  lemma NoSlotsYet(h: Hashes, t: Tables, p: Peers, news: seq<NetAddr>, trieds: seq<NetAddr>)
    requires Loadable(h, p) && Listed(p, news, trieds)
    requires TriedRead(h, t, p, news, trieds, |trieds|)
    ensures SlotsRead(h, t, p, news, 0, 0, Below(|news|)) && |Below(|news|)| == |news|
  {
    hide Inv, Abs, Listed, WellPlaced, Forget;
    assert trieds[..|trieds|] == trieds;
    BookRebuilt(p, news, trieds);
    TriedRebuilt(h, p, news, trieds);
    BelowSize(|news|);
    NewSlotsInGrid(h, p);
    DoneNone(p.new_);
  }

  lemma NewSlotsInGrid(h: Hashes, p: Peers)
    requires WellPlaced(h, p, {})
    ensures forall s <- p.new_ :: InNewTable(s)
  {
  }

  /** What the next slot to be read demands of the tables, and that they grant it. */
  lemma SlotFits(h: Hashes, t: Tables, p: Peers, news: seq<NetAddr>, trieds: seq<NetAddr>, b: int, i: int, limbo: set<int>)
    returns (k: int)
    requires Loadable(h, p) && Listed(p, news, trieds) && SlotsRead(h, t, p, news, b, i, limbo)
    requires Slot(b, i) in p.new_
    ensures k == IndexOf(news, p.new_[Slot(b, i)]) && 0 <= k < |news|
    ensures k in t.info && t.info[k].Ip() == p.new_[Slot(b, i)] && !t.info[k].inTried
    ensures i == h.BucketPosition(t.key, true, b, t.info[k].addr.svc)
    ensures InNewTable(Slot(b, i)) && Slot(b, i) !in t.new_
    ensures 0 <= t.info[k].refCount < NEW_BUCKETS_PER_ADDRESS
  {
    var s := Slot(b, i);
    var a := p.new_[s];
    NewPeerListed(h, p, news, trieds, s);
    k := IndexOf(news, a);
    hide Inv, Abs, Listed;
    DoneStep(p.new_, b, i);
    DoneCount(p.new_, b, i);
    NewSlotOf(h, t, s, limbo);
    EntryKey(t);
    EntryView(h, t, k, limbo);
  }

  lemma NewSlotOf(h: Hashes, t: Tables, s: Slot, limbo: set<int>)
    requires Inv(h, t, limbo)
    ensures s in t.new_ <==> s in Abs(t).new_
  {
    SlotView(h, t, s);
  }

  lemma NewPeerListed(h: Hashes, p: Peers, news: seq<NetAddr>, trieds: seq<NetAddr>, s: Slot)
    requires Loadable(h, p) && Listed(p, news, trieds) && s in p.new_
    ensures var a := p.new_[s];
            && a in p.book && !IsTried(p, a) && Refs(p, a) <= NEW_BUCKETS_PER_ADDRESS
            && InNewTable(s) && s.pos == h.BucketPosition(p.key, true, s.bucket, p.book[a].addr.svc)
            && 0 <= IndexOf(news, a) < |news| && news[IndexOf(news, a)] == a
  {
    var a := p.new_[s];
    SlotsNonEmpty(p.new_, s);
    assert a in p.book && Refs(p, a) > 0;
    ListedNames(p, news, trieds);
    var k :| 0 <= k < |news| && news[k] == a;
  }

  lemma SlotReadStep(h: Hashes, t: Tables, p: Peers, news: seq<NetAddr>, b: int, i: int, limbo: set<int>, k: int)
    requires SlotsRead(h, t, p, news, b, i, limbo)
    requires Slot(b, i) in p.new_ && InNewTable(Slot(b, i)) && Slot(b, i) !in t.new_
    requires k in t.info && t.info[k].Ip() == p.new_[Slot(b, i)] && !t.info[k].inTried
    requires i == h.BucketPosition(t.key, true, b, t.info[k].addr.svc)
    requires t.info[k].refCount < NEW_BUCKETS_PER_ADDRESS
    ensures var u := Placed(t, Slot(b, i), k);
            SlotsRead(h, if k in limbo then u.(nNew := u.nNew + 1) else u, p, news, b, i + 1, limbo - {k})
  {
    hide Inv, Abs, Placed, Done, Forget, InNewTable;
    PlacedKeeps(h, t, Slot(b, i), k, limbo);
    PlacedAbs(h, t, Slot(b, i), k, limbo);
    PlacedSame(t, Slot(b, i), k);
    DoneStep(p.new_, b, i);
    var u := Placed(t, Slot(b, i), k);
    AbsRenumbered(u, u.nNew + 1);
  }

  /** At the end nobody is without a slot, and the manager stands for what was saved. */
  lemma AllSlotsRead(h: Hashes, t: Tables, p: Peers, news: seq<NetAddr>, trieds: seq<NetAddr>, limbo: set<int>)
    requires Loadable(h, p) && Listed(p, news, trieds)
    requires SlotsRead(h, t, p, news, NEW_BUCKET_COUNT, 0, limbo)
    ensures limbo == {} && Abs(t) == Forget(p)
  {
    NewSlotsInGrid(h, p);
    DoneAll(p.new_, NEW_BUCKET_COUNT);
    forall k ensures k !in limbo {
      if k in limbo {
        BelowHas(|news|, k);
        assert k in t.info && t.info[k].Ip() == news[k];
        NewPeerHeld(h, p, news, trieds, k);
        EntryRefs(h, t, k, limbo);
      }
    }
  }

  lemma NewPeerHeld(h: Hashes, p: Peers, news: seq<NetAddr>, trieds: seq<NetAddr>, k: nat)
    requires Loadable(h, p) && Listed(p, news, trieds) && k < |news|
    ensures Refs(p, news[k]) > 0
  {
    ListedNames(p, news, trieds);
    assert news[k] in news;
  }

  lemma EntryRefs(h: Hashes, t: Tables, k: int, limbo: set<int>)
    requires Inv(h, t, limbo) && k in limbo
    ensures k in t.info && Refs(Abs(t), t.info[k].Ip()) == 0
  {
    LimboEntry(t, k, limbo);
    EntryView(h, t, k, limbo);
  }

  // ----- reading the buckets

  lemma {:induction false} EntriesPrefix(m: map<Slot, NetAddr>, names: seq<NetAddr>, b: int, i: nat, j: nat)
    requires i <= j
    ensures Entries(m, names, b, i) <= Entries(m, names, b, j)
  {
    if i < j { EntriesPrefix(m, names, b, i, j - 1); }
  }

  lemma {:induction false} BucketsPrefix(m: map<Slot, NetAddr>, names: seq<NetAddr>, b: nat, c: nat)
    requires b <= c
    ensures Buckets(m, names, b) <= Buckets(m, names, c)
  {
    if b < c {
      BucketsPrefix(m, names, b, c - 1);
      BucketsStep(m, names, c - 1);
    }
  }

  /** Where the next entry of a bucket comes from. */
  lemma NextEntry(m: map<Slot, NetAddr>, names: seq<NetAddr>, b: int, i: nat) returns (j: nat)
    requires i <= BUCKET_SIZE && |Entries(m, names, b, i)| < |Entries(m, names, b, BUCKET_SIZE)|
    ensures i <= j < BUCKET_SIZE && Slot(b, j) in m
    ensures Entries(m, names, b, j) == Entries(m, names, b, i) && Done(m, b, j) == Done(m, b, i)
    ensures |Entries(m, names, b, j + 1)| == |Entries(m, names, b, i)| + 1 <= |Entries(m, names, b, BUCKET_SIZE)|
    ensures Entries(m, names, b, BUCKET_SIZE)[|Entries(m, names, b, i)|] == TInt(IndexOf(names, m[Slot(b, j)]))
    decreases BUCKET_SIZE - i
  {
    if Slot(b, i) in m {
      j := i;
      EntriesPrefix(m, names, b, i + 1, BUCKET_SIZE);
      assert Entries(m, names, b, i + 1)[|Entries(m, names, b, i)|] == TInt(IndexOf(names, m[Slot(b, i)]));
    } else {
      DoneStep(m, b, i);
      assert Entries(m, names, b, i + 1) == Entries(m, names, b, i);
      j := NextEntry(m, names, b, i + 1);
    }
  }

  lemma {:induction false} RestEmpty(m: map<Slot, NetAddr>, names: seq<NetAddr>, b: int, i: nat)
    requires i <= BUCKET_SIZE && |Entries(m, names, b, i)| == |Entries(m, names, b, BUCKET_SIZE)|
    ensures Done(m, b, i) == Done(m, b, BUCKET_SIZE)
    decreases BUCKET_SIZE - i
  {
    if i < BUCKET_SIZE {
      EntriesPrefix(m, names, b, i + 1, BUCKET_SIZE);
      assert Slot(b, i) !in m;
      DoneStep(m, b, i);
      assert Entries(m, names, b, i + 1) == Entries(m, names, b, i);
      RestEmpty(m, names, b, i + 1);
    }
  }

  /** Everything one entry of a bucket needs, and what it brings about. */
  lemma EntryStep(h: Hashes, t: Tables, p: Peers, news: seq<NetAddr>, trieds: seq<NetAddr>, b: int, i: int, limbo: set<int>)
    returns (k: int, limbo': set<int>)
    requires Loadable(h, p) && Listed(p, news, trieds) && SlotsRead(h, t, p, news, b, i, limbo)
    requires t.nNew == |news| - |limbo|
    requires Slot(b, i) in p.new_
    ensures k == IndexOf(news, p.new_[Slot(b, i)]) && 0 <= k < |news| && k in t.info
    ensures 0 <= b < NEW_BUCKET_COUNT && 0 <= i < BUCKET_SIZE
    ensures i == h.BucketPosition(t.key, true, b, t.info[k].addr.svc) && Slot(b, i) !in t.new_
    ensures t.info[k].refCount < NEW_BUCKETS_PER_ADDRESS
    ensures SlotsRead(h, Placed(t, Slot(b, i), k).(nNew := |news| - |limbo'|), p, news, b, i + 1, limbo')
  {
    hide SlotsRead, Loadable, Listed, Placed;
    k := SlotFits(h, t, p, news, trieds, b, i, limbo);
    limbo' := limbo - {k};
    SlotReadStep(h, t, p, news, b, i, limbo, k);
    PlacedCount(t, Slot(b, i), k);
    assert k !in limbo ==> limbo' == limbo;
  }

  lemma PlacedCount(t: Tables, s: Slot, n: int)
    requires n in t.info
    ensures Placed(t, s, n).nNew == t.nNew && Placed(t, s, n).(nNew := t.nNew) == Placed(t, s, n)
  {
  }

  /** One entry of a bucket: the peer at that place of the list gets the slot its hash selects. */
  method ReadEntry(m: AddrMan, bucket: int, nIndex: int, ghost p: Peers, ghost news: seq<NetAddr>,
                   ghost trieds: seq<NetAddr>, ghost i: nat, ghost limbo: set<int>)
    returns (ghost limbo': set<int>)
    requires m.Shape() && Loadable(m.h, p) && Listed(p, news, trieds) && m.nNew == |news|
    requires SlotsRead(m.h, m.Now().(nNew := |news| - |limbo|), p, news, bucket, i, limbo)
    requires Slot(bucket, i) in p.new_ && nIndex == IndexOf(news, p.new_[Slot(bucket, i)])
    modifies m`mapInfo, m.vvNew
    ensures SlotsRead(m.h, m.Now().(nNew := |news| - |limbo'|), p, news, bucket, i + 1, limbo')
  {
    hide SlotsRead, Loadable, Listed, Placed;
    ghost var t := m.Now().(nNew := |news| - |limbo|);
    ghost var k;
    k, limbo' := EntryStep(m.h, t, p, news, trieds, bucket, i, limbo);
    if nIndex >= 0 && nIndex < m.nNew {
      var pos := m.h.BucketPosition(m.nKey, true, bucket, m.mapInfo[nIndex].addr.svc);
      if m.vvNew[bucket, pos] == -1 && m.mapInfo[nIndex].refCount < NEW_BUCKETS_PER_ADDRESS {
        PlacedRenumbered(m.Now(), Slot(bucket, pos), k, |news| - |limbo|);
        m.PutNew(bucket, pos, nIndex, m.mapInfo[nIndex].refCount + 1);
      }
    }
  }

  method ReadBucket(m: AddrMan, s: seq<Token>, start: nat, bucket: nat, ghost p: Peers, ghost news: seq<NetAddr>,
                    ghost trieds: seq<NetAddr>, ghost limbo: set<int>)
    returns (at: nat, ghost limbo': set<int>)
    requires m.Shape() && Loadable(m.h, p) && Listed(p, news, trieds) && m.nNew == |news|
    requires SlotsRead(m.h, m.Now().(nNew := |news| - |limbo|), p, news, bucket, 0, limbo)
    requires var entries := Entries(p.new_, news, bucket, BUCKET_SIZE);
             start + 1 + |entries| <= |s| && s[start..start + 1 + |entries|] == [TInt(|entries|)] + entries
    modifies m`mapInfo, m.vvNew
    ensures at == start + 1 + |Entries(p.new_, news, bucket, BUCKET_SIZE)|
    ensures SlotsRead(m.h, m.Now().(nNew := |news| - |limbo'|), p, news, bucket, BUCKET_SIZE, limbo')
  {
    hide SlotsRead, Loadable, Listed, Entries, Occupied, Inv, Abs;
    ghost var entries := Entries(p.new_, news, bucket, BUCKET_SIZE);
    ghost var chunk := s[start..start + 1 + |entries|];
    assert s[start] == chunk[0];
    var nSize := s[start].n;
    at := start + 1;
    limbo' := limbo;
    ghost var i := 0;
    EntriesNone(p.new_, news, bucket);
    for n := 0 to nSize
      invariant at == start + 1 + n && i <= BUCKET_SIZE && |Entries(p.new_, news, bucket, i)| == n
      invariant SlotsRead(m.h, m.Now().(nNew := |news| - |limbo'|), p, news, bucket, i, limbo')
    {
      ghost var j := NextEntry(p.new_, news, bucket, i);
      SlotsReadSame(m.h, m.Now().(nNew := |news| - |limbo'|), p, news, bucket, i, bucket, j, limbo');
      assert s[at] == chunk[n + 1] == entries[n];
      var nIndex := s[at].n;
      limbo' := ReadEntry(m, bucket, nIndex, p, news, trieds, j, limbo');
      i := j + 1;
      at := at + 1;
    }
    RestEmpty(p.new_, news, bucket, i);
    SlotsReadSame(m.h, m.Now().(nNew := |news| - |limbo'|), p, news, bucket, i, bucket, BUCKET_SIZE, limbo');
  }

  lemma EntriesNone(m: map<Slot, NetAddr>, names: seq<NetAddr>, b: int)
    ensures Entries(m, names, b, 0) == []
  {
  }

  lemma SlotsReadSame(h: Hashes, t: Tables, p: Peers, news: seq<NetAddr>, b: int, i: int, c: int, j: int, limbo: set<int>)
    requires SlotsRead(h, t, p, news, b, i, limbo) && Done(p.new_, b, i) == Done(p.new_, c, j)
    ensures SlotsRead(h, t, p, news, c, j, limbo)
  {
  }

  method ReadBuckets(m: AddrMan, s: seq<Token>, start: nat, nUBuckets: nat, ghost p: Peers, ghost news: seq<NetAddr>,
                     ghost trieds: seq<NetAddr>)
    requires m.Shape() && Loadable(m.h, p) && Listed(p, news, trieds) && m.nNew == |news|
    requires nUBuckets == NEW_BUCKET_COUNT
    requires SlotsRead(m.h, m.Now().(nNew := 0), p, news, 0, 0, Below(|news|)) && |Below(|news|)| == |news|
    requires start <= |s| && s[start..] == Buckets(p.new_, news, NEW_BUCKET_COUNT)
    modifies m`mapInfo, m.vvNew
    ensures SlotsRead(m.h, m.Now(), p, news, NEW_BUCKET_COUNT, 0, {})
    ensures Inv(m.h, m.Now(), {}) && m.View() == Forget(p)
  {
    hide SlotsRead, Loadable, Listed, Buckets, Inv, Abs, Forget;
    var at := start;
    ghost var limbo := Below(|news|);
    BucketsStart(p.new_, news);
    for bucket := 0 to nUBuckets
      invariant at == start + |Buckets(p.new_, news, bucket)|
      invariant SlotsRead(m.h, m.Now().(nNew := |news| - |limbo|), p, news, bucket, 0, limbo)
    {
      BucketHere(s, start, p.new_, news, bucket);
      at, limbo := ReadBucket(m, s, at, bucket, p, news, trieds, limbo);
      GridDone(m.h, p, bucket);
      SlotsReadSame(m.h, m.Now().(nNew := |news| - |limbo|), p, news, bucket, BUCKET_SIZE, bucket + 1, 0, limbo);
    }
    AllSlotsRead(m.h, m.Now().(nNew := |news| - |limbo|), p, news, trieds, limbo);
    assert m.Now().(nNew := |news| - |limbo|) == m.Now();
    SlotsReadInv(m.h, m.Now(), p, news, NEW_BUCKET_COUNT, 0, {});
  }

  lemma GridDone(h: Hashes, p: Peers, b: int)
    requires Loadable(h, p)
    ensures Done(p.new_, b, BUCKET_SIZE) == Done(p.new_, b + 1, 0)
  {
    NewSlotsInGrid(h, p);
    DoneBucket(p.new_, b);
  }

  lemma SlotsReadInv(h: Hashes, t: Tables, p: Peers, news: seq<NetAddr>, b: int, i: int, limbo: set<int>)
    requires SlotsRead(h, t, p, news, b, i, limbo)
    ensures Inv(h, t, limbo)
  {
  }

  /** Bucket b of the stream, where the reader stands. */
  lemma BucketHere(s: seq<Token>, start: nat, m: map<Slot, NetAddr>, names: seq<NetAddr>, b: nat)
    requires start <= |s| && s[start..] == Buckets(m, names, NEW_BUCKET_COUNT) && b < NEW_BUCKET_COUNT
    ensures var entries, at := Entries(m, names, b, BUCKET_SIZE), start + |Buckets(m, names, b)|;
            && at + 1 + |entries| <= |s| && s[at..at + 1 + |entries|] == [TInt(|entries|)] + entries
            && |Buckets(m, names, b + 1)| == |Buckets(m, names, b)| + 1 + |entries|
  {
    hide Buckets, Entries;
    BucketsPrefix(m, names, b + 1, NEW_BUCKET_COUNT);
    BucketsStep(m, names, b);
    var entries := Entries(m, names, b, BUCKET_SIZE);
    MiddlePart(s, start, Buckets(m, names, b), [TInt(|entries|)] + entries, Buckets(m, names, NEW_BUCKET_COUNT));
  }

  lemma MiddlePart(s: seq<Token>, start: nat, x: seq<Token>, y: seq<Token>, all: seq<Token>)
    requires start <= |s| && s[start..] == all && x + y <= all
    ensures var at := start + |x|; at + |y| <= |s| && s[at..at + |y|] == y
  {
    assert all[..|x + y|] == x + y;
    assert s[start..][|x|..|x + y|] == y;
  }

  // ----- the loader and the round trip

  lemma EmptyStart(h: Hashes, t: Tables, p: Peers, news: seq<NetAddr>)
    requires p.key != 0 && t == Tables(p.key, 0, map[], map[], [], 0, map[], 0, map[])
    ensures NewRead(h, t, p, news, 0)
  {
    assert TriedIds(t) == {} && NewIds(t, Below(0)) == {};
    assert BookPart(p.book, news[..0]) == map[];
  }

  lemma EmptyBook(h: Hashes, t: Tables)
    requires Inv(h, t, {}) && Abs(t).book == map[]
    ensures t.info == map[] && t.addr == map[]
  {
    hide AddrOk, BookOf, Names;
    forall n ensures n !in t.info {
      if n in t.info { BookAt(t, n); }
    }
    forall a ensures a !in t.addr { NoEntry(t, a); }
    assert t.info.Keys == {} && t.addr.Keys == {};
  }

  ghost function IpsOf(info: map<int, AddrInfo>, ids: set<int>): set<NetAddr> {
    set n | n in ids && n in info :: info[n].Ip()
  }

  /** How far the deletions have come: `left` is what is still to go of `limbo`. */
  ghost predicate Pruned(h: Hashes, t: Tables, was: Tables, limbo: set<int>, left: set<int>) {
    && Inv(h, t.(nNew := t.nNew - |left|), left) && left <= limbo
    && (forall n <- left :: n in was.info && n in t.info && t.info[n].Ip() == was.info[n].Ip())
    && Abs(t) == Abs(was).(book := Abs(was).book - IpsOf(was.info, limbo - left))
  }

  lemma PruneStart(h: Hashes, t: Tables, limbo: set<int>)
    requires Inv(h, t.(nNew := t.nNew - |limbo|), limbo)
    ensures Pruned(h, t, t, limbo, limbo) && 0 <= t.idCount && forall n <- limbo :: 0 <= n < t.idCount
  {
    hide RandomOk, AddrOk, TriedOk, NewOk, Abs;
    assert IpsOf(t.info, limbo - limbo) == {};
    assert Abs(t).book - {} == Abs(t).book;
  }

  lemma {:induction false} PruneStep(h: Hashes, t: Tables, was: Tables, limbo: set<int>, left: set<int>, n: int)
    requires Pruned(h, t, was, limbo, left) && n in left
    ensures RandomOk(t) && n in t.info && Inv(h, t.(nNew := t.nNew - 1 - (|left| - 1)), left)
    ensures Pruned(h, Deleted(t, n), was, limbo, left - {n}) && Deleted(t, n).idCount == t.idCount
  {
    hide Inv, Abs, RandomOk, Deleted, IpsOf;
    assert t.(nNew := t.nNew - 1 - (|left| - 1)) == t.(nNew := t.nNew - |left|);
    DeletedKeeps(h, t, n, left, |left| - 1);
    DeletedSame(t, n);
    IpsMore(was.info, limbo, left, n);
  }

  lemma {:induction false} IpsMore(info: map<int, AddrInfo>, limbo: set<int>, left: set<int>, n: int)
    requires left <= limbo && n in left && n in info
    ensures IpsOf(info, limbo - (left - {n})) == IpsOf(info, limbo - left) + {info[n].Ip()}
  {
    assert limbo - (left - {n}) == limbo - left + {n};
  }

  /** Whether the loader finds an entry that no slot refers to. */
  lemma PruneHere(h: Hashes, t: Tables, was: Tables, limbo: set<int>, left: set<int>, n: int)
    requires Pruned(h, t, was, limbo, left)
    ensures n in t.info && !t.info[n].inTried && t.info[n].refCount == 0 <==> n in left
  {
    hide RandomOk, AddrOk, TriedOk, NewOk, Abs;
  }

  /** Deletes the entries that no slot refers to, which are those in limbo; `nNew` still counts them. */
  method Prune(m: AddrMan, ghost limbo: set<int>) returns (nLostUnk: int)
    requires m.Shape() && Inv(m.h, m.Now().(nNew := m.nNew - |limbo|), limbo)
    modifies m
    ensures m.Valid() && nLostUnk == |limbo|
    ensures m.View() == old(m.View()).(book := old(m.View()).book - IpsOf(old(m.mapInfo), limbo))
  {
    hide Inv, Abs, Pruned, IpsOf, Occupied, Deleted, RandomOk;
    ghost var was, left := m.Now(), limbo;
    PruneStart(m.h, was, limbo);
    nLostUnk := 0;
    for id := 0 to m.nIdCount
      invariant Pruned(m.h, m.Now(), was, limbo, left) && nLostUnk == |limbo| - |left|
      invariant forall n <- left :: id <= n < was.idCount
    {
      PruneHere(m.h, m.Now(), was, limbo, left, id);
      if id in m.mapInfo && !m.mapInfo[id].inTried && m.mapInfo[id].refCount == 0 {
        PruneStep(m.h, m.Now(), was, limbo, left, id);
        m.Delete(id, left, |left| - 1);
        left := left - {id};
        nLostUnk := nLostUnk + 1;
      }
    }
    if left != {} {
      ghost var n := SomeMember(left);
    }
    PruneEnds(m.h, m.Now(), was, limbo);
  }

  lemma PruneEnds(h: Hashes, t: Tables, was: Tables, limbo: set<int>)
    requires Pruned(h, t, was, limbo, {})
    ensures Inv(h, t, {}) && Abs(t) == Abs(was).(book := Abs(was).book - IpsOf(was.info, limbo))
  {
    hide Inv, Abs, IpsOf;
    assert t.(nNew := t.nNew - 0) == t && limbo - {} == limbo;
  }

  /** Reads both lists of peers, after the six fixed tokens. */
  method ReadLists(m: AddrMan, s: seq<Token>, ghost p: Peers, ghost news: seq<NetAddr>, ghost trieds: seq<NetAddr>)
    returns (at: nat, nLost: int)
    requires m.Shape() && Loadable(m.h, p) && Listed(p, news, trieds) && s == Encode(p, news, trieds)
    requires NewRead(m.h, m.Now().(idCount := 0, nNew := 0, nTried := 0), p, news, 0)
    requires m.nNew == |news| && m.nTried == |trieds|
    modifies m, m.vvTried
    ensures at == 6 + |news| + |trieds| && nLost == 0 && m.nNew == |news|
    ensures SlotsRead(m.h, m.Now().(nNew := 0), p, news, 0, 0, Below(|news|)) && |Below(|news|)| == |news|
  {
    hide Inv, Abs, NewRead, TriedRead, SlotsRead, Loadable, Listed, Buckets, Infos, Encode, Forget;
    StreamParts(p, news, trieds);
    at := ReadNews(m, s, 6, p, news, trieds);
    m.nIdCount := m.nNew;
    NoneTriedYet(m.h, m.Now().(nNew := 0, nTried := 0), p, news, trieds);
    at, nLost := ReadTrieds(m, s, at, p, news, trieds);
    m.nTried := m.nTried - nLost;
    NoSlotsYet(m.h, m.Now().(nNew := 0), p, news, trieds);
  }

  /** Clears the manager and reads the six fixed tokens. */
  method ReadHeader(m: AddrMan, s: seq<Token>, randomKey: nat, ghost p: Peers, ghost news: seq<NetAddr>,
                    ghost trieds: seq<NetAddr>)
    returns (ok: bool, nUBuckets: nat)
    requires m.Shape() && m.mapInfo == map[] && m.mapAddr == map[] && p.key != 0
    requires |s| >= 6 && s[..6] == [TByte(1), TByte(32), TKey(p.key), TInt(|news|), TInt(|trieds|), TInt(XorBit30(NEW_BUCKET_COUNT))]
    modifies m, m.vvTried, m.vvNew
    ensures ok && nUBuckets == NEW_BUCKET_COUNT
    ensures NewRead(m.h, m.Now().(idCount := 0, nNew := 0, nTried := 0), p, news, 0)
    ensures m.nNew == |news| && m.nTried == |trieds|
  {
    hide NewRead;
    ghost var head := s[..6];
    m.Clear(randomKey);
    assert s[0] == head[0] && s[1] == head[1] && s[2] == head[2] && s[3] == head[3] && s[4] == head[4] && s[5] == head[5];
    var nVersion := s[0].b;
    var nKeySize := s[1].b;
    ok, nUBuckets := nKeySize == 32, 0;
    if !ok { return; }
    m.nKey := s[2].key;
    m.nNew := s[3].n;
    m.nTried := s[4].n;
    nUBuckets := s[5].n;
    if nVersion != 0 {
      nUBuckets := XorBit30(nUBuckets);
    }
    EmptyStart(m.h, m.Now().(idCount := 0, nNew := 0, nTried := 0), p, news);
  }

  /** Loads a stream that a consistent manager wrote into a manager that is still empty. Nothing is lost
      to collisions, and nothing is pruned. */
  method Unserialize(m: AddrMan, s: seq<Token>, randomKey: nat, ghost p: Peers, ghost news: seq<NetAddr>,
                     ghost trieds: seq<NetAddr>)
    returns (ok: bool, nLost: int, nLostUnk: int)
    requires m.Valid() && m.View().book == map[]
    requires Loadable(m.h, p) && Listed(p, news, trieds) && s == Encode(p, news, trieds)
    modifies m, m.vvTried, m.vvNew
    ensures ok && nLost == 0 && nLostUnk == 0
    ensures m.Valid() && m.View() == Forget(p)
  {
    hide Inv, Abs, NewRead, SlotsRead, Loadable, Listed, Buckets, Infos, Encode, Forget;
    EmptyBook(m.h, m.Now());
    LoadableKey(m.h, p);
    StreamParts(p, news, trieds);
    var at, nUBuckets;
    nLost, nLostUnk := 0, 0;
    ok, nUBuckets := ReadHeader(m, s, randomKey, p, news, trieds);
    if ok {
      at, nLost := ReadLists(m, s, p, news, trieds);
      ReadBuckets(m, s, at, nUBuckets, p, news, trieds);
      ghost var none: set<int>, book := {}, m.View().book;
      assert m.Now().(nNew := m.nNew - |none|) == m.Now();
      assert book - IpsOf(m.mapInfo, none) == book by { assert IpsOf(m.mapInfo, none) == {}; }
      nLostUnk := Prune(m, none);
    }
  }

  lemma LoadableKey(h: Hashes, p: Peers)
    requires Loadable(h, p)
    ensures p.key != 0
  {
  }

  lemma ForgetKeeps(p: Peers)
    ensures var q := Forget(p);
            && q.key == p.key && q.new_ == p.new_ && q.tried == p.tried && q.book.Keys == p.book.Keys
            && forall a <- p.book ::
                 && q.book[a].addr == p.book[a].addr && q.book[a].source == p.book[a].source
                 && q.book[a].lastSuccess == p.book[a].lastSuccess && q.book[a].attempts == p.book[a].attempts
                 && q.book[a].lastTry == 0
  {
  }

  /** Saving a consistent manager and loading it into a new one yields the same peers in the same slots
      under the same key, all but the times of their last tries; both managers are consistent. */
  method RoundTrip(m: AddrMan, otherKey: nat) returns (copy: AddrMan)
    requires m.Valid() && otherKey != 0
    ensures copy.Valid() && copy.h == m.h && fresh(copy)
    ensures copy.View().key == m.View().key
    ensures copy.View().new_ == m.View().new_ && copy.View().tried == m.View().tried
    ensures copy.View().book.Keys == m.View().book.Keys
    ensures forall a <- m.View().book ::
              var was, back := m.View().book[a], copy.View().book[a];
              && back.addr == was.addr && back.source == was.source
              && back.lastSuccess == was.lastSuccess && back.attempts == was.attempts && back.lastTry == 0
  {
    hide Inv, Abs, WellPlaced, Loadable, Listed, Encode, Forget;
    ghost var p := m.View();
    ViewPlaced(m.h, m.Now());
    ConsistentIsLoadable(m.h, m.Now());
    var s := Serialize(m);
    ghost var news, trieds := News(m), Trieds(m);
    copy := new AddrMan(m.h, otherKey);
    var ok, nLost, nLostUnk := Unserialize(copy, s, otherKey, p, news, trieds);
    ForgetKeeps(p);
  }
}

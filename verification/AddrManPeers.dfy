/** What the operations mean for the peers, said without the specification's own functions: which records
    change and how, who is lost, and who gets a slot. */
module AddrManPeers {
  import opened AddrManTypes
  import opened AddrManSpec
  import opened AddrManSteps
  import Bits

  // ----- the peers of a consistent manager

  lemma ViewPlaced(h: Hashes, t: Tables)
    requires Inv(h, t, {})
    ensures WellPlaced(h, Abs(t), {})
  {
    hide Inv, Abs, IsTried, Refs;
    var p := Abs(t);
    forall a | a in p.book
      ensures p.book[a].addr.svc.ip == a
      ensures IsTried(p, a) <==> Refs(p, a) == 0
      ensures Refs(p, a) <= NEW_BUCKETS_PER_ADDRESS
    {
      ViewEntry(h, t, a);
    }
    SlotsPlaced(h, t);
  }

  lemma SlotsPlaced(h: Hashes, t: Tables)
    requires Inv(h, t, {})
    ensures var p := Abs(t);
            && (forall s <- p.new_ ::
                  && InNewTable(s) && p.new_[s] in p.book
                  && s.pos == h.BucketPosition(p.key, true, s.bucket, p.book[p.new_[s]].addr.svc))
            && (forall s <- p.tried :: p.tried[s] in p.book && s == h.TriedSlot(p.key, p.book[p.tried[s]].addr.svc))
  {
    hide AddrOk, BookOf, RandomOk, EntriesOk;
    var p := Abs(t);
    forall s | s in p.new_
      ensures InNewTable(s) && p.new_[s] in p.book
      ensures s.pos == h.BucketPosition(p.key, true, s.bucket, p.book[p.new_[s]].addr.svc)
    {
      var n := t.new_[s];
      assert n in t.info;
      BookAt(t, n);
    }
    forall s | s in p.tried
      ensures p.tried[s] in p.book && s == h.TriedSlot(p.key, p.book[p.tried[s]].addr.svc)
    {
      var n := t.tried[s];
      assert n in t.info;
      BookAt(t, n);
    }
  }

  lemma ViewEntry(h: Hashes, t: Tables, a: NetAddr)
    requires Inv(h, t, {}) && a in Abs(t).book
    ensures var p := Abs(t);
            && p.book[a].addr.svc.ip == a
            && (IsTried(p, a) <==> Refs(p, a) == 0)
            && Refs(p, a) <= NEW_BUCKETS_PER_ADDRESS
  {
    NoEntry(t, a);
    var n := t.addr[a];
    assert n in t.info;
    hide RandomOk, TriedOk, NewOk, TriedIds, NewIds, BookOf, Names, Abs, IsTried, Refs;
    EntryView(h, t, n, {});
  }

  // ----- losses

  /** Clearing a slot forgets its holder exactly when it holds nothing else. */
  lemma ClearNewLoses(p: Peers, s: Slot)
    ensures var q := ClearNew(p, s);
            && q == p.(book := q.book, new_ := p.new_ - {s})
            && q.book == if s in p.new_ && Refs(p, p.new_[s]) == 1 then p.book - {p.new_[s]} else p.book
  {
    if s in p.new_ {
      var a := p.new_[s];
      SlotsDrop(p.new_, s, a);
    } else {
      assert p.new_ - {s} == p.new_;
    }
  }

  lemma EnterKeepsQuality(h: Hashes, p: Peers, a: NetAddr, source: NetAddr, now: int)
    requires a in p.book
    requires forall s <- p.new_ :: p.new_[s] in p.book
    ensures var q := Enter(h, p, a, source, now);
            && q.tried == p.tried && q.key == p.key
            && q.book.Keys <= p.book.Keys
            && (forall x <- q.book :: q.book[x] == p.book[x])
            && (forall x <- p.book | x != a :: x !in q.book ==> IsTerrible(p.book[x], now) && Refs(p, x) == 1)
            && (Refs(p, a) > 0 ==> a in q.book)
  {
    hide IsTerrible, ClearNew;
    ClearNewLoses(p, h.NewSlot(p.key, p.book[a].addr.svc, source));
  }

  lemma {:induction false} EnterKeepsOthers(h: Hashes, p: Peers, a: NetAddr, peer: Peer, source: NetAddr, now: int)
    requires a in p.book ==> Refs(p, a) > 0
    requires forall s <- p.new_ :: p.new_[s] in p.book
    ensures var q := Enter(h, p.(book := p.book[a := peer]), a, source, now);
            && q.tried == p.tried
            && (forall x <- p.book :: x !in q.book ==> IsTerrible(p.book[x], now) && Refs(p, x) == 1)
            && (forall x <- p.book :: x != a && x in q.book ==> q.book[x] == p.book[x])
            && (forall x <- q.book :: x == a || x in p.book)
  {
    hide IsTerrible, Enter, SlotsOf;
    EnterKeepsQuality(h, p.(book := p.book[a := peer]), a, source, now);
  }

  lemma RefsPositive(h: Hashes, p: Peers, a: NetAddr)
    requires WellPlaced(h, p, {})
    ensures a in p.book && !IsTried(p, a) ==> Refs(p, a) > 0
    ensures forall s <- p.new_ :: p.new_[s] in p.book
  {
  }

  /** A peer announced again or for the first time never costs the book a peer of quality, and never
      touches the tried table. */
  lemma AddKeepsQuality(h: Hashes, p: Peers, addr: Address, source: NetAddr, penalty: int, now: int, rnd: nat -> nat)
    requires WellPlaced(h, p, {})
    ensures var q := Add(h, p, addr, source, penalty, now, rnd);
            && q.tried == p.tried
            && (forall a <- p.book :: a !in q.book ==> IsTerrible(p.book[a], now) && Refs(p, a) == 1)
            && (forall a <- p.book :: a != addr.svc.ip && a in q.book ==> q.book[a] == p.book[a])
            && (forall a <- q.book :: a == addr.svc.ip || a in p.book)
  {
    hide IsTerrible, Enter, Refresh, SlotsOf, ToU32, WellPlaced, Bits.Pow2;
    var a := addr.svc.ip;
    RefsPositive(h, p, a);
    var pen := if a == source then 0 else penalty;
    if !h.routable(a) {
    } else if a in p.book {
      var peer := Refresh(p.book[a], addr, pen, now);
      if MayMultiply(p.(book := p.book[a := peer]), a, addr, rnd) {
        EnterKeepsOthers(h, p, a, peer, source, now);
      }
    } else {
      var time := ToU32(if addr.time - pen > 0 then addr.time - pen else 0);
      EnterKeepsOthers(h, p, a, Peer(addr.(time := time), source, 0, 0, 0), source, now);
    }
  }

  // ----- announcements

  /** What an announcement makes of the record of a known peer. Its time moves forward only, to the time
      announced less the penalty, and only if it lags behind that by more than an hour, or by more than a
      day if the announcement itself is a day old. */
  ghost predicate Announced(before: Peer, after: Peer, addr: Address, penalty: int, now: int) {
    var t, u := before.addr.time, after.addr.time;
    && after.source == before.source && after.lastSuccess == before.lastSuccess
    && after.lastTry == before.lastTry && after.attempts == before.attempts
    && after.addr.svc == before.addr.svc && after.addr.services == before.addr.services + addr.services
    && (addr.time == 0 ==> u == t)
    && (t != 0 && now - addr.time < 86400 && t >= addr.time - penalty - 3600 ==> u == t)
    && (t != 0 && now - addr.time >= 86400 && t >= addr.time - penalty - 86400 ==> u == t)
    && (0 <= penalty && addr.time < 0x1_0000_0000 ==>
          && (t != 0 ==> t <= u)
          && (u == t || u == addr.time - penalty)
          && (addr.time != 0 && now - addr.time < 86400 ==> u >= addr.time - penalty - 3600)
          && (addr.time != 0 && now - addr.time >= 86400 ==> u >= addr.time - penalty - 86400))
  }

  lemma RefreshSays(known: Peer, addr: Address, penalty: int, now: int)
    ensures Announced(known, Refresh(known, addr, penalty, now), addr, penalty, now)
  {
  }

  /** The record of a peer that was not known before: as announced, dated back by the penalty. */
  ghost predicate Introduced(after: Peer, addr: Address, source: NetAddr, penalty: int) {
    && after.source == source && after.lastSuccess == 0 && after.lastTry == 0 && after.attempts == 0
    && after.addr.svc == addr.svc && after.addr.services == addr.services
    && (0 <= penalty && addr.time < 0x1_0000_0000 ==>
          after.addr.time == if addr.time > penalty then addr.time - penalty else 0)
  }

  lemma IntroducedAs(addr: Address, source: NetAddr, penalty: int)
    ensures var time := ToU32(if addr.time - penalty > 0 then addr.time - penalty else 0);
            Introduced(Peer(addr.(time := time), source, 0, 0, 0), addr, source, penalty)
  {
  }

  /** A known peer that is announced stays in the book, with its record brought up to date; a new one that
      gets in has the record announced. */
  lemma {:induction false} AddRecords(h: Hashes, p: Peers, addr: Address, source: NetAddr, penalty: int, now: int,
                                      rnd: nat -> nat)
    requires WellPlaced(h, p, {})
    ensures var a, q := addr.svc.ip, Add(h, p, addr, source, penalty, now, rnd);
            var pen := if a == source then 0 else penalty;
            && (!h.routable(a) ==> q == p)
            && (h.routable(a) && a in p.book ==> a in q.book && Announced(p.book[a], q.book[a], addr, pen, now))
            && (h.routable(a) && a !in p.book && a in q.book ==> Introduced(q.book[a], addr, source, pen))
  {
    hide IsTerrible, Enter, Refresh, SlotsOf, WellPlaced, Announced, Introduced, ToU32, Bits.Pow2;
    var a := addr.svc.ip;
    RefsPositive(h, p, a);
    var pen := if a == source then 0 else penalty;
    if h.routable(a) {
      if a in p.book {
        var q := p.(book := p.book[a := Refresh(p.book[a], addr, pen, now)]);
        RefreshSays(p.book[a], addr, pen, now);
        if MayMultiply(q, a, addr, rnd) {
          EnterKeepsQuality(h, q, a, source, now);
        }
      } else {
        var time := ToU32(if addr.time - pen > 0 then addr.time - pen else 0);
        var q := p.(book := p.book[a := Peer(addr.(time := time), source, 0, 0, 0)]);
        IntroducedAs(addr, source, pen);
        EnterKeepsQuality(h, q, a, source, now);
      }
    }
  }

  /** Who gets the slot when a peer tries to enter it. */
  lemma {:induction false} EnterSlots(h: Hashes, p: Peers, a: NetAddr, source: NetAddr, now: int)
    requires a in p.book
    requires forall s <- p.new_ :: p.new_[s] in p.book
    ensures var us, q := h.NewSlot(p.key, p.book[a].addr.svc, source), Enter(h, p, a, source, now);
            if us in p.new_ && p.new_[us] == a then
              q == p
            else if us !in p.new_ || IsTerrible(p.book[p.new_[us]], now)
                    || (Refs(p, p.new_[us]) > 1 && Refs(p, a) == 0) then
              q.new_ == p.new_[us := a] && a in q.book
            else
              q.new_ == p.new_ && (a in q.book <==> Refs(p, a) > 0)
  {
    hide IsTerrible, ClearNew, SlotsOf;
    var us := h.NewSlot(p.key, p.book[a].addr.svc, source);
    ClearNewLoses(p, us);
    assert (p.new_ - {us})[us := a] == p.new_[us := a];
  }

  lemma NoSlotsUnknown(p: Peers, a: NetAddr)
    requires a !in p.book && forall s <- p.new_ :: p.new_[s] in p.book
    ensures Refs(p, a) == 0
  {
    assert SlotsOf(p.new_, a) == {};
  }

  /** Exactly when an announcement gets a peer into the slot that the source selects. A new peer also needs
      that slot to be in the book at all; a known one may add it to fewer than eight others, with odds of one
      in two to the number it has, if it was announced as seen since. */
  lemma {:induction false} AddEnters(h: Hashes, p: Peers, addr: Address, source: NetAddr, penalty: int, now: int,
                                     rnd: nat -> nat)
    requires WellPlaced(h, p, {}) && h.routable(addr.svc.ip)
    ensures var a, q := addr.svc.ip, Add(h, p, addr, source, penalty, now, rnd);
            if a !in p.book then
              var us := h.NewSlot(p.key, addr.svc, source);
              && (a in q.book <==> us !in p.new_ || IsTerrible(p.book[p.new_[us]], now) || Refs(p, p.new_[us]) > 1)
              && q.new_ == if a in q.book then p.new_[us := a] else p.new_
            else
              var us := h.NewSlot(p.key, p.book[a].addr.svc, source);
              var u := q.book[a].addr.time;
              && a in q.book
              && q.new_ ==
                 if && addr.time != 0 && (u == 0 || u < addr.time)
                    && !IsTried(p, a) && Refs(p, a) < 8 && rnd(Bits.Pow2(Refs(p, a))) == 0
                    && (us !in p.new_ || p.new_[us] == a || IsTerrible(p.book[p.new_[us]], now))
                 then p.new_[us := a] else p.new_
  {
    hide IsTerrible, Refresh, ToU32, Bits.Pow2, Enter, SlotsOf, WellPlaced, Announced;
    var a := addr.svc.ip;
    RefsPositive(h, p, a);
    AddRecords(h, p, addr, source, penalty, now, rnd);
    var pen := if a == source then 0 else penalty;
    if a in p.book {
      var q := p.(book := p.book[a := Refresh(p.book[a], addr, pen, now)]);
      RefreshSvc(p.book[a], addr, pen, now);
      PlacedRefs(h, p, a);
      if MayMultiply(q, a, addr, rnd) { EnterKeepsQuality(h, q, a, source, now); }
      EnterSlots(h, q, a, source, now);
      assert forall us | us in p.new_ && p.new_[us] == a :: p.new_[us := a] == p.new_;
    } else {
      var time := ToU32(if addr.time - pen > 0 then addr.time - pen else 0);
      var q := p.(book := p.book[a := Peer(addr.(time := time), source, 0, 0, 0)]);
      NoSlotsUnknown(p, a);
      EnterSlots(h, q, a, source, now);
    }
  }

  lemma RefreshSvc(known: Peer, addr: Address, penalty: int, now: int)
    ensures Refresh(known, addr, penalty, now).addr.svc == known.addr.svc
  {
  }

  lemma PlacedRefs(h: Hashes, p: Peers, a: NetAddr)
    requires WellPlaced(h, p, {}) && a in p.book
    ensures Refs(p, a) <= 8 && (IsTried(p, a) <==> Refs(p, a) == 0)
  {
  }

  // ----- promotion

  /** Eviction alone: the peer in the tried slot moves to the new slot its source selects, at the
      expense of at most that slot's holder. */
  lemma EvictMoves(h: Hashes, p: Peers, ts: Slot)
    requires ts in p.tried && p.tried[ts] in p.book && Refs(p, p.tried[ts]) == 0
    ensures var q, b := Evict(h, p, ts), p.tried[ts];
            var us := h.NewSlot(p.key, p.book[b].addr.svc, p.book[b].source);
            && q.key == p.key && q.tried == p.tried - {ts}
            && q.new_ == p.new_[us := b] && SlotsOf(q.new_, b) == {us}
            && q.book == if us in p.new_ && Refs(p, p.new_[us]) == 1 then p.book - {p.new_[us]} else p.book
  {
    var q, b := Evict(h, p, ts), p.tried[ts];
    var us := h.NewSlot(p.key, p.book[b].addr.svc, p.book[b].source);
    ClearNewLoses(p.(tried := p.tried - {ts}), us);
    assert q.new_ == (p.new_ - {us})[us := b];
    assert SlotsOf(p.new_, b) == {};
    forall s ensures s in SlotsOf(q.new_, b) <==> s == us {
      assert s in p.new_ && p.new_[s] == b ==> s in SlotsOf(p.new_, b);
    }
  }

  lemma WithoutSlots(m: map<Slot, NetAddr>, a: NetAddr)
    ensures SlotsOf(m - SlotsOf(m, a), a) == {}
    ensures forall x | x != a :: SlotsOf(m - SlotsOf(m, a), x) == SlotsOf(m, x)
    ensures forall s <- m - SlotsOf(m, a) :: m[s] != a
  {
  }

  /** Writing a tried slot makes its new holder tried and changes nothing for the others. */
  lemma TakesTriedSlot(m: map<Slot, NetAddr>, ts: Slot, a: NetAddr)
    requires ts !in m
    ensures forall x | x != a :: SlotsOf(m[ts := a], x) == SlotsOf(m, x)
  {
  }

  lemma MakeTriedOver(h: Hashes, p: Peers, a: NetAddr, ts: Slot)
    requires a in p.book && ts == h.TriedSlot(p.key, p.book[a].addr.svc)
    requires ts in p.tried && p.tried[ts] in p.book && p.tried[ts] != a
    requires Refs(p, p.tried[ts]) == 0 && SlotsOf(p.tried, p.tried[ts]) == {ts}
    ensures var q, b := MakeTried(h, p, a), p.tried[ts];
            var us := h.NewSlot(p.key, p.book[b].addr.svc, p.book[b].source);
            && q.tried == (p.tried - {ts})[ts := a] && !IsTried(q, b)
            && a in q.book && b in q.book
            && Refs(q, a) == 0 && Refs(q, b) == 1
            && us in q.new_ && q.new_[us] == b
            && q.new_ == (p.new_ - SlotsOf(p.new_, a))[us := b]
            && (forall x <- q.book :: x in p.book && q.book[x] == p.book[x])
            && (forall x <- p.book :: x !in q.book ==> us in p.new_ && p.new_[us] == x && Refs(p, x) == 1)
  {
    var b := p.tried[ts];
    var us := h.NewSlot(p.key, p.book[b].addr.svc, p.book[b].source);
    var p1 := p.(new_ := p.new_ - SlotsOf(p.new_, a));
    WithoutSlots(p.new_, a);
    WithoutSlots(p.new_, b);
    EvictMoves(h, p1, ts);
    SlotsDrop(p.tried, ts, b);
    TakesTriedSlot(p.tried - {ts}, ts, a);
    hide Evict, ClearNew;
    var q := MakeTried(h, p, a);
    assert SlotsOf(q.new_, a) == {} by {
      assert forall s <- q.new_ :: q.new_[s] != a;
    }
    assert us in p1.new_ ==> us in p.new_ && p1.new_[us] == p.new_[us] && p1.new_[us] != b by {
      assert SlotsOf(p.new_, b) == {};
      assert us in p.new_ && p.new_[us] == b ==> us in SlotsOf(p.new_, b);
    }
  }

  lemma MakeTriedFree(h: Hashes, p: Peers, a: NetAddr, ts: Slot)
    requires a in p.book && ts == h.TriedSlot(p.key, p.book[a].addr.svc) && ts !in p.tried
    ensures MakeTried(h, p, a) == p.(new_ := p.new_ - SlotsOf(p.new_, a), tried := p.tried[ts := a])
    ensures Refs(MakeTried(h, p, a), a) == 0
  {
    WithoutSlots(p.new_, a);
  }

  /** Promotion: the peer leaves the new table for its own tried slot; whoever was there returns to the
      new table; and only that return can cost a peer, namely one whose single slot it takes. */
  lemma GoodPromotes(h: Hashes, p: Peers, svc: Service, time: int)
    requires WellPlaced(h, p, {})
    requires svc.ip in p.book && p.book[svc.ip].addr.svc == svc && !IsTried(p, svc.ip)
    ensures var q, ts := Good(h, p, svc, time), h.TriedSlot(p.key, svc);
            && ts.bucket == h.tried(p.key, svc) % 256 && ts.pos == h.position(p.key, false, ts.bucket, svc) % 64
            && svc.ip in q.book && Refs(q, svc.ip) == 0
            && q.book[svc.ip] == p.book[svc.ip].(lastSuccess := time, lastTry := time, attempts := 0)
            && (forall a <- q.book :: a in p.book && (a != svc.ip ==> q.book[a] == p.book[a]))
            && q.tried == (p.tried - {ts})[ts := svc.ip]
            && (ts !in p.tried ==> q.book.Keys == p.book.Keys && q.new_ == p.new_ - SlotsOf(p.new_, svc.ip))
            && (ts in p.tried ==>
                  var b := p.tried[ts];
                  var us := h.NewSlot(p.key, p.book[b].addr.svc, p.book[b].source);
                  && us.bucket == h.new_(p.key, p.book[b].addr.svc.ip, p.book[b].source) % 1024
                  && us.pos == h.position(p.key, true, us.bucket, p.book[b].addr.svc) % 64
                  && q.new_ == (p.new_ - SlotsOf(p.new_, svc.ip))[us := b]
                  && us in q.new_ && q.new_[us] == b && b in q.book && !IsTried(q, b) && Refs(q, b) == 1
                  && (forall a <- p.book :: a !in q.book ==> us in p.new_ && p.new_[us] == a && Refs(p, a) == 1))
  {
    hide WellPlaced, MakeTried, Good, IsTried, SlotsOf;
    var a, ts := svc.ip, h.TriedSlot(p.key, svc);
    var p1 := p.(book := p.book[a := p.book[a].(lastSuccess := time, lastTry := time, attempts := 0)]);
    GoodIs(h, p, svc, time);
    if ts in p.tried {
      HolderOfTried(h, p, ts);
      assert p.tried[ts] != a;
      MakeTriedOver(h, p1, a, ts);
    } else {
      MakeTriedFree(h, p1, a, ts);
      assert p.tried - {ts} == p.tried;
    }
  }

  /** A success is recorded before the peer is promoted. */
  lemma GoodIs(h: Hashes, p: Peers, svc: Service, time: int)
    requires svc.ip in p.book && p.book[svc.ip].addr.svc == svc && !IsTried(p, svc.ip)
    ensures var peer := p.book[svc.ip].(lastSuccess := time, lastTry := time, attempts := 0);
            var p1 := p.(book := p.book[svc.ip := peer]);
            Good(h, p, svc, time) == MakeTried(h, p1, svc.ip)
  {
    hide MakeTried, SlotsOf;
  }

  /** What a success does to the records, whichever table the peer is in: it is recorded for the exact
      service only. A peer that is tried already stays where it is. */
  lemma {:induction false} GoodRecords(h: Hashes, p: Peers, svc: Service, time: int)
    requires WellPlaced(h, p, {})
    ensures var a, q := svc.ip, Good(h, p, svc, time);
            && (a !in p.book || p.book[a].addr.svc != svc ==> q == p)
            && (a in p.book && p.book[a].addr.svc == svc ==>
                  && a in q.book
                  && q.book[a] == p.book[a].(lastSuccess := time, lastTry := time, attempts := 0)
                  && (forall x <- q.book :: x in p.book && (x != a ==> q.book[x] == p.book[x]))
                  && (IsTried(p, a) ==> q.book.Keys == p.book.Keys && q.new_ == p.new_ && q.tried == p.tried))
  {
    var a := svc.ip;
    if a in p.book && p.book[a].addr.svc == svc && !IsTried(p, a) {
      hide WellPlaced, Good, IsTried, Refs;
      GoodPromotes(h, p, svc, time);
    } else {
      hide WellPlaced;
    }
  }

  lemma HolderOfTried(h: Hashes, p: Peers, ts: Slot)
    requires WellPlaced(h, p, {}) && ts in p.tried
    ensures var b := p.tried[ts]; b in p.book && IsTried(p, b) && Refs(p, b) == 0 && SlotsOf(p.tried, b) == {ts}
  {
    assert ts in SlotsOf(p.tried, p.tried[ts]);
  }

  // ----- who is worth telling others about

  /** A peer tried in the last minute is spared. Any other is terrible if it is dated more than ten minutes
      ahead, was not seen for thirty days, never succeeded in three attempts, or failed ten times in a row
      with no success for a week. */
  lemma TerribleExactly(p: Peer, now: int)
    ensures IsTerrible(p, now) <==>
            && (p.lastTry == 0 || now - p.lastTry > 60)
            && (|| p.addr.time == 0 || p.addr.time - now > 600 || now - p.addr.time > 2592000
                || (p.lastSuccess == 0 && p.attempts >= 3)
                || (p.attempts >= 10 && now - p.lastSuccess > 604800))
  {
  }

  /** A success spares a peer for a minute; three attempts without any success make it terrible. */
  lemma {:induction false} AttemptsTell(h: Hashes, p: Peers, svc: Service, t1: int, t2: int, t3: int, now: int)
    requires WellPlaced(h, p, {}) && svc.ip in p.book && p.book[svc.ip].addr.svc == svc
    ensures t1 != 0 && now <= t1 + 60 ==> !IsTerrible(Good(h, p, svc, t1).book[svc.ip], now)
    ensures p.book[svc.ip].lastSuccess == 0 && p.book[svc.ip].attempts >= 0 && t3 < now - 60 ==>
              IsTerrible(Attempt(Attempt(Attempt(p, svc, t1), svc, t2), svc, t3).book[svc.ip], now)
  {
    hide WellPlaced, Good, IsTerrible;
    GoodRecords(h, p, svc, t1);
    TerribleExactly(Good(h, p, svc, t1).book[svc.ip], now);
    TerribleExactly(Attempt(Attempt(Attempt(p, svc, t1), svc, t2), svc, t3).book[svc.ip], now);
  }
}

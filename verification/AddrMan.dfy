/** The address manager as the object it is: two maps, a vector, two bucket arrays and counters that
    every operation updates in place. Each operation is proved to keep the consistency condition and to
    do to the peers exactly what AddrManSpec says. */
module AddrMan {
  import opened AddrManTypes
  import opened AddrManSpec
  import opened AddrManSteps
  import opened AddrManCheck
  import opened AddrManPeers
  import Bits

  ghost function Grid(m: nat, n: nat): (g: set<Slot>)
    ensures forall s :: s in g <==> 0 <= s.bucket < m && 0 <= s.pos < n
  {
    set b, i | 0 <= b < m && 0 <= i < n :: Slot(b, i)
  }

  /** The occupied slots of a bucket array. */
  ghost function Occupied(a: array2<int>): map<Slot, int>
    reads a
  {
    map s | s in Grid(a.Length0, a.Length1) && a[s.bucket, s.pos] != -1 :: a[s.bucket, s.pos]
  }

  lemma OccupiedAt(a: array2<int>, b: int, i: int)
    ensures Slot(b, i) in Occupied(a) <==> 0 <= b < a.Length0 && 0 <= i < a.Length1 && a[b, i] != -1
    ensures Slot(b, i) in Occupied(a) ==> Occupied(a)[Slot(b, i)] == a[b, i]
  {
  }

  lemma OccupiedInside(a: array2<int>)
    ensures forall s <- Occupied(a) :: 0 <= s.bucket < a.Length0 && 0 <= s.pos < a.Length1
  {
  }

  lemma NoneOccupied(a: array2<int>)
    requires forall b, i | 0 <= b < a.Length0 && 0 <= i < a.Length1 :: a[b, i] == -1
    ensures Occupied(a) == map[]
  {
  }

  /** The k-th bucket of a search that starts at `start` and wraps around. */
  function Probe(k: nat, start: nat): nat {
    (k + start) % NEW_BUCKET_COUNT
  }

  class AddrMan {
    const h: Hashes
    var nKey: nat
    var nIdCount: int
    var mapInfo: map<int, AddrInfo>
    var mapAddr: map<NetAddr, int>
    var vRandom: seq<int>
    var nTried: int
    const vvTried: array2<int>
    var nNew: int
    const vvNew: array2<int>

    ghost predicate Shape() {
      && vvTried.Length0 == TRIED_BUCKET_COUNT && vvTried.Length1 == BUCKET_SIZE
      && vvNew.Length0 == NEW_BUCKET_COUNT && vvNew.Length1 == BUCKET_SIZE
      && vvTried != vvNew
    }

    ghost function Now(): Tables
      reads this, vvTried, vvNew
    {
      Tables(nKey, nIdCount, mapInfo, mapAddr, vRandom, nTried, Occupied(vvTried), nNew, Occupied(vvNew))
    }

    ghost predicate Valid()
      reads this, vvTried, vvNew
    {
      Shape() && Inv(h, Now(), {})
    }

    /** The peers this manager stands for. */
    ghost function View(): Peers
      reads this, vvTried, vvNew
    {
      Abs(Now())
    }

    constructor (h: Hashes, key: nat)
      requires key != 0
      ensures Valid() && this.h == h
      ensures View() == Peers(key, map[], map[], map[])
      ensures fresh(vvTried) && fresh(vvNew)
    {
      this.h := h;
      nKey := key;
      nIdCount, nTried, nNew := 0, 0, 0;
      mapInfo, mapAddr, vRandom := map[], map[], [];
      vvTried := new int[TRIED_BUCKET_COUNT, BUCKET_SIZE]((b, i) => -1);
      vvNew := new int[NEW_BUCKET_COUNT, BUCKET_SIZE]((b, i) => -1);
      new;
      NoneOccupied(vvTried);
      NoneOccupied(vvNew);
      hide Inv, Abs, Occupied;
      EmptyTables(h, key);
    }

    /** Empties the vector and both tables and zeroes the counters, under a new key. The two maps are
        left as they are. */
    method Clear(key: nat)
      requires Shape()
      modifies this`nKey, this`nIdCount, this`vRandom, this`nTried, this`nNew, vvTried, vvNew
      ensures Now() == Tables(key, 0, mapInfo, mapAddr, [], 0, map[], 0, map[])
    {
      vRandom := [];
      nKey := key;
      for b := 0 to NEW_BUCKET_COUNT
        invariant vRandom == [] && nKey == key
        invariant forall c, i | 0 <= c < b && 0 <= i < BUCKET_SIZE :: vvNew[c, i] == -1
      {
        for i := 0 to BUCKET_SIZE
          invariant vRandom == [] && nKey == key
          invariant forall c, j | 0 <= c < b && 0 <= j < BUCKET_SIZE :: vvNew[c, j] == -1
          invariant forall j | 0 <= j < i :: vvNew[b, j] == -1
        {
          vvNew[b, i] := -1;
        }
      }
      for b := 0 to TRIED_BUCKET_COUNT
        invariant vRandom == [] && nKey == key
        invariant forall c, i | 0 <= c < b && 0 <= i < BUCKET_SIZE :: vvTried[c, i] == -1
        invariant forall c, i | 0 <= c < NEW_BUCKET_COUNT && 0 <= i < BUCKET_SIZE :: vvNew[c, i] == -1
      {
        for i := 0 to BUCKET_SIZE
          invariant vRandom == [] && nKey == key
          invariant forall c, j | 0 <= c < b && 0 <= j < BUCKET_SIZE :: vvTried[c, j] == -1
          invariant forall j | 0 <= j < i :: vvTried[b, j] == -1
          invariant forall c, j | 0 <= c < NEW_BUCKET_COUNT && 0 <= j < BUCKET_SIZE :: vvNew[c, j] == -1
        {
          vvTried[b, i] := -1;
        }
      }
      nIdCount, nTried, nNew := 0, 0, 0;
      NoneOccupied(vvTried);
      NoneOccupied(vvNew);
    }

    method SetNew(b: int, i: int, id: int)
      requires Shape() && 0 <= b < NEW_BUCKET_COUNT && 0 <= i < BUCKET_SIZE
      modifies vvNew
      ensures Now() == old(Now()).(new_ := if id == -1 then old(Now()).new_ - {Slot(b, i)}
                                           else old(Now()).new_[Slot(b, i) := id])
    {
      vvNew[b, i] := id;
      assert Occupied(vvNew) == if id == -1 then old(Occupied(vvNew)) - {Slot(b, i)}
                                else old(Occupied(vvNew))[Slot(b, i) := id];
    }

    method SetTried(b: int, i: int, id: int)
      requires Shape() && 0 <= b < TRIED_BUCKET_COUNT && 0 <= i < BUCKET_SIZE
      modifies vvTried
      ensures Now() == old(Now()).(tried := if id == -1 then old(Now()).tried - {Slot(b, i)}
                                            else old(Now()).tried[Slot(b, i) := id])
    {
      vvTried[b, i] := id;
      assert Occupied(vvTried) == if id == -1 then old(Occupied(vvTried)) - {Slot(b, i)}
                                  else old(Occupied(vvTried))[Slot(b, i) := id];
    }

    /** Writes an entry into a new slot together with its new reference count. */
    method PutNew(b: int, i: int, id: int, refs: int)
      requires Shape() && 0 <= b < NEW_BUCKET_COUNT && 0 <= i < BUCKET_SIZE
      requires id in mapInfo && id != -1 && refs == mapInfo[id].refCount + 1
      modifies this`mapInfo, vvNew
      ensures Now() == Placed(old(Now()), Slot(b, i), id)
    {
      mapInfo := mapInfo[id := mapInfo[id].(refCount := refs)];
      SetNew(b, i, id);
    }

    /** Empties the new slot of an entry and lowers its reference count. */
    method TakeNew(b: int, i: int)
      requires Shape() && 0 <= b < NEW_BUCKET_COUNT && 0 <= i < BUCKET_SIZE
      requires vvNew[b, i] != -1 && vvNew[b, i] in mapInfo
      modifies this`mapInfo, vvNew
      ensures Slot(b, i) in old(Now()).new_ && Now() == Dropped(old(Now()), Slot(b, i))
    {
      var id := vvNew[b, i];
      mapInfo := mapInfo[id := mapInfo[id].(refCount := mapInfo[id].refCount - 1)];
      SetNew(b, i, -1);
    }

    method SwapRandom(i: int, j: int)
      requires 0 <= i < |vRandom| && 0 <= j < |vRandom|
      requires RandomOk(Now())
      modifies this`mapInfo, this`vRandom
      ensures Now() == Swapped(old(Now()), i, j)
    {
      if i == j { return; }
      var id1, id2 := vRandom[i], vRandom[j];
      assert id1 in mapInfo && id2 in mapInfo;
      mapInfo := mapInfo[id1 := mapInfo[id1].(randomPos := j)];
      mapInfo := mapInfo[id2 := mapInfo[id2].(randomPos := i)];
      vRandom := vRandom[i := id2];
      vRandom := vRandom[j := id1];
    }

    /** Removes an entry that no table holds; `nNew` still counts it, and `extra` more that are in limbo. */
    method Delete(id: int, ghost limbo: set<int>, ghost extra: nat)
      requires Shape() && id in limbo && Inv(h, Now().(nNew := nNew - 1 - extra), limbo)
      modifies this
      ensures RandomOk(old(Now())) && id in old(mapInfo) && Now() == Deleted(old(Now()), id)
      ensures Inv(h, Now().(nNew := nNew - extra), limbo - {id})
      ensures View() == old(View()).(book := old(View()).book - {old(mapInfo)[id].Ip()})
    {
      hide Inv, Abs, Occupied, RandomOk, Swapped;
      ghost var t := Now();
      DeletedKeeps(h, t, id, limbo, extra);
      var info := mapInfo[id];
      assert !info.inTried && info.refCount == 0;
      SwappedLast(t, id);
      SwappedSame(t, info.randomPos, |vRandom| - 1);
      SwapRandom(info.randomPos, |vRandom| - 1);
      vRandom := vRandom[..|vRandom| - 1];
      mapAddr := mapAddr - {info.Ip()};
      mapInfo := mapInfo - {id};
      nNew := nNew - 1;
      assert Now() == Deleted(t, id);
    }

    /** Empties a slot of the new table and forgets the entry if that was its last one. */
    method ClearNew(b: int, i: int, ghost limbo: set<int>, ghost extra: nat)
      requires Shape() && Inv(h, Now().(nNew := nNew - extra), limbo)
      requires 0 <= b < NEW_BUCKET_COUNT && 0 <= i < BUCKET_SIZE
      modifies this, vvNew
      ensures RandomOk(old(Now())) && (Slot(b, i) in old(Now()).new_ ==> old(Now()).new_[Slot(b, i)] in old(mapInfo))
      ensures Now() == Cleared(old(Now()), Slot(b, i))
      ensures Inv(h, Now().(nNew := nNew - extra), limbo)
      ensures View() == AddrManSpec.ClearNew(old(View()), Slot(b, i))
    {
      hide Inv, Abs, Occupied, RandomOk, Dropped, Deleted, AddrManSpec.ClearNew;
      ghost var t, s := Now(), Slot(b, i);
      OccupiedAt(vvNew, b, i);
      ClearedKeeps(h, t, s, limbo, extra);
      if vvNew[b, i] != -1 {
        var id := vvNew[b, i];
        DroppedSame(t, s);
        TakeNew(b, i);
        if mapInfo[id].refCount == 0 {
          DroppedInLimbo(h, t, s, limbo, extra);
          Delete(id, limbo + {id}, extra);
        }
      }
    }

    /** The first part of MakeTried: the entry leaves every new bucket. */
    method LeaveNew(id: int)
      requires Valid() && id in mapInfo && !mapInfo[id].inTried
      modifies this, vvNew
      ensures Inv(h, Now(), {id})
      ensures View() == old(View()).(new_ := old(View()).new_ - SlotsOf(old(View()).new_, old(mapInfo)[id].Ip()))
      ensures Now() == old(Now()).(info := mapInfo, new_ := Now().new_, nNew := nNew)
      ensures id in mapInfo && mapInfo[id] == old(mapInfo)[id].(refCount := 0)
    {
      hide RandomOk, AddrOk, TriedOk, NewOk, EntriesOk, TriedIds, NewIds, BookOf, Names;
      ghost var t := Now();
      SweptStart(h, t, id);
      for b := 0 to NEW_BUCKET_COUNT
        invariant id in mapInfo && mapInfo[id].addr == t.info[id].addr
        invariant Now() == SweptTo(t, id, b)
      {
        var pos := h.BucketPosition(nKey, true, b, mapInfo[id].addr.svc);
        SweptStep(h, t, id, b);
        if vvNew[b, pos] == id {
          TakeNew(b, pos);
        }
      }
      SweptAll(h, t, id);
      nNew := nNew - 1;
      Renumbered(h, SweptTo(t, id, NEW_BUCKET_COUNT), Now(), {id});
      assert mapInfo[id].refCount == 0;
    }

    /** The entry that holds a tried slot is taken out of the tried table. */
    method Demote(kb: int, kpos: int) returns (out: int)
      requires Shape() && 0 <= kb < TRIED_BUCKET_COUNT && 0 <= kpos < BUCKET_SIZE
      requires vvTried[kb, kpos] != -1 && vvTried[kb, kpos] in mapInfo
      modifies this`mapInfo, this`nTried, vvTried
      ensures Slot(kb, kpos) in old(Now()).tried && out == old(Now()).tried[Slot(kb, kpos)]
      ensures Now() == Demoted(old(Now()), Slot(kb, kpos))
    {
      out := vvTried[kb, kpos];
      OccupiedAt(vvTried, kb, kpos);
      hide Occupied;
      mapInfo := mapInfo[out := mapInfo[out].(inTried := false)];
      SetTried(kb, kpos, -1);
      nTried := nTried - 1;
    }

    /** The second part of MakeTried: whoever holds the tried slot goes back to the new table. */
    method Evict(kb: int, kpos: int, ghost id: int)
      requires Shape() && Inv(h, Now(), {id})
      requires 0 <= kb < TRIED_BUCKET_COUNT && 0 <= kpos < BUCKET_SIZE && vvTried[kb, kpos] != -1
      modifies this, vvTried, vvNew
      ensures EvictedTo(h, old(Now()), Slot(kb, kpos), id, Now())
    {
      hide Inv, Abs, Occupied, RandomOk, Cleared, Placed, EvictedTo;
      ghost var t, ts := Now(), Slot(kb, kpos);
      OccupiedAt(vvTried, kb, kpos);
      InvNames(h, t, {id});
      var out := Demote(kb, kpos);
      var svc, source := mapInfo[out].addr.svc, mapInfo[out].source;
      var ub := h.NewBucket(nKey, svc, source);
      var upos := h.BucketPosition(nKey, true, ub, svc);
      EvictEnds(h, t, ts, Slot(ub, upos), id);
      ClearNew(ub, upos, {id} + {out}, 0);
      PutNew(ub, upos, out, 1);
      nNew := nNew + 1;
    }

    /** The entry takes a free tried slot. */
    method TakeTried(kb: int, kpos: int, id: int)
      requires Shape() && 0 <= kb < TRIED_BUCKET_COUNT && 0 <= kpos < BUCKET_SIZE && id in mapInfo && id != -1
      modifies this`mapInfo, this`nTried, vvTried
      ensures Now() == Promoted(old(Now()), Slot(kb, kpos), id)
    {
      hide Occupied;
      SetTried(kb, kpos, id);
      nTried := nTried + 1;
      mapInfo := mapInfo[id := mapInfo[id].(inTried := true)];
    }

    method MakeTried(id: int)
      requires Valid() && id in mapInfo && !mapInfo[id].inTried && mapInfo[id].lastSuccess > 0
      modifies this, vvTried, vvNew
      ensures Valid()
      ensures var a := old(mapInfo)[id].Ip();
              a in old(View()).book && View() == AddrManSpec.MakeTried(h, old(View()), a)
    {
      hide Inv, Abs, Occupied, AddrManSpec.Evict, Promoted;
      ghost var t, a := Now(), mapInfo[id].Ip();
      EntryView(h, t, id, {});
      LeaveNew(id);
      var kb := h.TriedBucket(nKey, mapInfo[id].addr.svc);
      var kpos := h.BucketPosition(nKey, false, kb, mapInfo[id].addr.svc);
      ghost var u, ts := Now(), Slot(kb, kpos);
      OccupiedAt(vvTried, kb, kpos);
      if vvTried[kb, kpos] != -1 {
        Evict(kb, kpos, id);
      } else {
        EvictNothing(h, u, ts);
      }
      OccupiedAt(vvTried, kb, kpos);
      assert vvTried[kb, kpos] == -1;
      InvId(h, Now(), id, {id});
      PromotedKeeps(h, Now(), ts, id, {id});
      assert {id} - {id} == {};
      TakeTried(kb, kpos, id);
    }

    method Find(a: NetAddr) returns (found: bool, id: int)
      requires Valid()
      ensures found <==> a in View().book
      ensures found ==> id in mapInfo && id == mapAddr[a] && mapInfo[id].Ip() == a && View().book[a] == PeerOf(mapInfo[id])
    {
      hide RandomOk, TriedOk, NewOk, EntriesOk, TriedIds, NewIds, BookOf, Names;
      id := -1;
      NoEntry(Now(), a);
      if a !in mapAddr { return false, id; }
      id := mapAddr[a];
      found := id in mapInfo;
      EntryView(h, Now(), id, {});
    }

    /** Rewrites what an entry says about its peer. */
    method Describe(id: int, i: AddrInfo)
      requires Valid() && id in mapInfo
      requires i.addr.svc == mapInfo[id].addr.svc && i.refCount == mapInfo[id].refCount
      requires i.inTried == mapInfo[id].inTried && i.randomPos == mapInfo[id].randomPos
      requires i.lastTry >= 0 && i.lastSuccess >= 0 && (i.inTried ==> i.lastSuccess > 0)
      modifies this`mapInfo
      ensures Valid() && mapInfo == old(mapInfo)[id := i]
      ensures View() == old(View()).(book := old(View()).book[i.Ip() := PeerOf(i)])
    {
      hide RandomOk, AddrOk, TriedOk, NewOk, EntriesOk, TriedIds, NewIds, BookOf, Names;
      DescribedKeeps(h, Now(), id, i, {});
      mapInfo := mapInfo[id := i];
      assert Now() == Described(old(Now()), id, i);
    }

    /** Some new bucket that holds the entry, or -1; the search starts at bucket `rnd` and wraps around. */
    method UsedBucket(id: int, rnd: nat) returns (ub: int)
      requires Valid() && id in mapInfo && !mapInfo[id].inTried && rnd < NEW_BUCKET_COUNT
      ensures 0 <= ub < NEW_BUCKET_COUNT && vvNew[ub, h.BucketPosition(nKey, true, ub, mapInfo[id].addr.svc)] == id
    {
      hide Inv, Occupied;
      var svc := mapInfo[id].addr.svc;
      ub := -1;
      for n := 0 to NEW_BUCKET_COUNT
        invariant ub == -1
        invariant forall k | 0 <= k < n ::
                    var b := Probe(k, rnd); vvNew[b, h.BucketPosition(nKey, true, b, svc)] != id
      {
        var b := Probe(n, rnd);
        var pos := h.BucketPosition(nKey, true, b, svc);
        if vvNew[b, pos] == id {
          ub := b;
          break;
        }
      }
      ghost var s := NewHome(h, Now(), id);
      ghost var k := if s.bucket >= rnd then s.bucket - rnd else s.bucket - rnd + NEW_BUCKET_COUNT;
      OccupiedAt(vvNew, s.bucket, s.pos);
      assert Probe(k, rnd) == s.bucket && vvNew[s.bucket, s.pos] == id;
    }

    /** `rnd` is the bucket at which the search for the entry's new slot starts. The search cannot come
        back empty-handed, so a new entry always moves to the tried table. */
    method Good_(svc: Service, time: int, rnd: nat)
      requires Valid() && time > 0 && rnd < NEW_BUCKET_COUNT
      modifies this, vvTried, vvNew
      ensures Valid()
      ensures View() == AddrManSpec.Good(h, old(View()), svc, time)
      ensures svc.ip in old(View()).book && old(View()).book[svc.ip].addr.svc == svc ==>
                && svc.ip in View().book
                && View().book[svc.ip] == old(View()).book[svc.ip].(lastSuccess := time, lastTry := time, attempts := 0)
    {
      hide Inv, Abs, Occupied, AddrManSpec.MakeTried, IsTried, Refs;
      ViewPlaced(h, Now());
      GoodRecords(h, View(), svc, time);
      hide WellPlaced;
      var found, id := Find(svc.ip);
      if !found { return; }
      if mapInfo[id].addr.svc != svc { return; }
      EntryView(h, Now(), id, {});
      Describe(id, mapInfo[id].(lastSuccess := time, lastTry := time, attempts := 0));
      EntryView(h, Now(), id, {});
      if mapInfo[id].inTried { return; }
      var ub := UsedBucket(id, rnd);
      if ub != -1 {
        MakeTried(id);
      }
    }

    method Attempt_(svc: Service, time: int)
      requires Valid() && time >= 0
      modifies this
      ensures Valid()
      ensures View() == AddrManSpec.Attempt(old(View()), svc, time)
      ensures View() == old(View()).(book := View().book) && View().book.Keys == old(View()).book.Keys
      ensures forall a <- View().book ::
                var was := old(View()).book[a];
                View().book[a] ==
                if was.addr.svc == svc then was.(lastTry := time, attempts := was.attempts + 1) else was
    {
      hide RandomOk, AddrOk, TriedOk, NewOk, EntriesOk, TriedIds, NewIds, BookOf, Names, Abs;
      BookIps(Now());
      var found, id := Find(svc.ip);
      if !found { return; }
      if mapInfo[id].addr.svc != svc { return; }
      EntryTimes(Now(), id, {});
      Describe(id, mapInfo[id].(lastTry := time, attempts := mapInfo[id].attempts + 1));
    }

    method Connected_(svc: Service, time: int)
      requires Valid()
      modifies this
      ensures Valid()
      ensures View() == AddrManSpec.Connected(old(View()), svc, time)
      ensures View() == old(View()).(book := View().book) && View().book.Keys == old(View()).book.Keys
      ensures 0 <= time < 0x1_0000_0000 ==> forall a <- View().book ::
                var was := old(View()).book[a];
                View().book[a] == if was.addr.svc == svc && time - was.addr.time > 1200
                                  then was.(addr := was.addr.(time := time)) else was
    {
      hide RandomOk, AddrOk, TriedOk, NewOk, EntriesOk, TriedIds, NewIds, BookOf, Names, Abs;
      BookIps(Now());
      var found, id := Find(svc.ip);
      if !found { return; }
      if mapInfo[id].addr.svc != svc { return; }
      EntryTimes(Now(), id, {});
      if time - mapInfo[id].addr.time > 20 * 60 {
        Describe(id, mapInfo[id].(addr := mapInfo[id].addr.(time := ToU32(time))));
      }
    }

    /** Makes an entry that no table holds yet. */
    method Create(addr: Address, source: NetAddr) returns (id: int)
      requires nIdCount !in mapInfo
      modifies this`nIdCount, this`mapInfo, this`mapAddr, this`vRandom
      ensures id == old(nIdCount) && Now() == Created(old(Now()), addr, source)
    {
      id := nIdCount;
      nIdCount := nIdCount + 1;
      mapInfo := mapInfo[id := AddrInfo(addr, source, 0, 0, 0, 0, false, -1)];
      mapAddr := mapAddr[addr.svc.ip := id];
      mapInfo := mapInfo[id := mapInfo[id].(randomPos := |vRandom|)];
      vRandom := vRandom + [id];
    }

    /** The last part of Add_: the entry takes the new slot that `source` selects, if it may. An entry
        that has no slot at all is counted in `nNew` already. */
    method Enter(id: int, source: NetAddr, now: int)
      requires Shape() && SweepInv(h, Now(), id) && !mapInfo[id].inTried
      requires mapInfo[id].refCount < NEW_BUCKETS_PER_ADDRESS
      modifies this, vvNew
      ensures Valid()
      ensures var a := old(mapInfo)[id].Ip();
              a in old(View()).book && View() == AddrManSpec.Enter(h, old(View()), a, source, now)
    {
      hide Inv, Abs, Occupied, SweepInv, RandomOk, Cleared, Placed, IsTerrible, AddrManSpec.Enter, AddrManSpec.ClearNew;
      ghost var t := Now();
      SweepCounts(h, t, id);
      ghost var limbo := Waiting(t, id);
      var svc := mapInfo[id].addr.svc;
      var ub := h.NewBucket(nKey, svc, source);
      var upos := h.BucketPosition(nKey, true, ub, svc);
      ghost var us := Slot(ub, upos);
      OccupiedAt(vvNew, ub, upos);
      EnterIs(h, t, id, us, source, now);
      if vvNew[ub, upos] != id {
        var insert := vvNew[ub, upos] == -1;
        if !insert {
          var existing := mapInfo[vvNew[ub, upos]];
          if IsTerrible(PeerOf(existing), now) || (existing.refCount > 1 && mapInfo[id].refCount == 0) {
            insert := true;
          }
        }
        assert insert <==> MayEnter(t, us, id, now);
        if insert {
          EnterInserts(h, t, id, us);
          ClearNew(ub, upos, limbo, |limbo|);
          PutNew(ub, upos, id, mapInfo[id].refCount + 1);
          assert Now() == Placed(Cleared(t, us), us, id);
          assert Valid();
          assert View() == AddrManSpec.Enter(h, old(View()), t.info[id].Ip(), source, now);
        } else if mapInfo[id].refCount == 0 {
          Delete(id, limbo, 0);
          assert limbo - {id} == {} && Now().(nNew := nNew - 0) == Now();
          assert Valid();
        }
      }
    }

    /** The record of a known peer, brought up to date from what is announced. */
    static method Refreshed(info: AddrInfo, addr: Address, penalty: int, now: int) returns (i: AddrInfo)
      ensures i == info.(addr := i.addr) && i.addr.svc == info.addr.svc
      ensures PeerOf(i) == Refresh(PeerOf(info), addr, penalty, now)
    {
      var interval := if now - addr.time < 24 * 60 * 60 then 60 * 60 else 24 * 60 * 60;
      i := info;
      if addr.time != 0 && (i.addr.time == 0 || i.addr.time < addr.time - interval - penalty) {
        i := i.(addr := i.addr.(time := ToU32(if addr.time - penalty > 0 then addr.time - penalty else 0)));
      }
      i := i.(addr := i.addr.(services := i.addr.services + addr.services));
    }

    /** The part of Add_ for a known peer: refreshes it and says whether it may take one more new slot.
        `rnd(k)` stands for a random draw below k. */
    method Renew(id: int, addr: Address, penalty: int, now: int, rnd: nat -> nat) returns (more: bool)
      requires Valid() && id in mapInfo && mapInfo[id].Ip() == addr.svc.ip
      modifies this`mapInfo
      ensures Valid()
      ensures var a, was := addr.svc.ip, old(View());
              && a in was.book
              && View() == was.(book := was.book[a := Refresh(was.book[a], addr, penalty, now)])
              && Announced(was.book[a], View().book[a], addr, penalty, now)
              && (more <==> MayMultiply(View(), a, addr, rnd))
      ensures id in mapInfo && mapInfo[id].Ip() == addr.svc.ip
      ensures more ==> !mapInfo[id].inTried && 0 < mapInfo[id].refCount < NEW_BUCKETS_PER_ADDRESS
    {
      hide Inv, Abs, Occupied, IsTried, Refs, Refresh, Announced;
      EntryView(h, Now(), id, {});
      InvEntry(h, Now(), id);
      var i := Refreshed(mapInfo[id], addr, penalty, now);
      RefreshSays(PeerOf(mapInfo[id]), addr, penalty, now);
      Describe(id, i);
      EntryView(h, Now(), id, {});
      InvEntry(h, Now(), id);
      if addr.time == 0 || (i.addr.time != 0 && addr.time <= i.addr.time) { return false; }
      if i.inTried { return false; }
      if i.refCount == NEW_BUCKETS_PER_ADDRESS { return false; }
      var factor := 1;
      for n := 0 to i.refCount
        invariant factor == Bits.Pow2(n) && (n > 0 ==> factor > 1)
      {
        factor := factor * 2;
      }
      more := !(factor > 1 && rnd(factor) != 0);
    }

    /** The part of Add_ for an unknown peer: it gets an entry, which `nNew` counts at once. */
    method Admit(addr: Address, source: NetAddr, penalty: int) returns (id: int)
      requires Valid() && addr.svc.ip !in View().book
      modifies this
      ensures SweepInv(h, Now(), id) && mapInfo[id].refCount == 0 && !mapInfo[id].inTried
      ensures mapInfo[id].Ip() == addr.svc.ip
      ensures var time := ToU32(if addr.time - penalty > 0 then addr.time - penalty else 0);
              View() == old(View()).(book := old(View()).book[addr.svc.ip := Peer(addr.(time := time), source, 0, 0, 0)])
    {
      hide Inv, Abs, Occupied, Created;
      ghost var t := Now();
      var time := ToU32(if addr.time - penalty > 0 then addr.time - penalty else 0);
      InvNextId(h, t, addr.svc.ip);
      CreatedLater(t, addr, source, time);
      id := Create(addr, source);
      mapInfo := mapInfo[id := mapInfo[id].(addr := mapInfo[id].addr.(time := time))];
      nNew := nNew + 1;
      AdmitEnds(h, t, addr.(time := time), source);
    }

    method Add_(addr: Address, source: NetAddr, penaltyIn: int, now: int, rnd: nat -> nat) returns (isNew: bool)
      requires Valid()
      modifies this, vvNew
      ensures Valid()
      ensures isNew <==> h.routable(addr.svc.ip) && addr.svc.ip !in old(View()).book
      ensures View() == AddrManSpec.Add(h, old(View()), addr, source, penaltyIn, now, rnd)
      ensures var a, was, penalty := addr.svc.ip, old(View()).book, if addr.svc.ip == source then 0 else penaltyIn;
              && (h.routable(a) && a in was ==>
                    a in View().book && Announced(was[a], View().book[a], addr, penalty, now))
              && (h.routable(a) && a !in was && a in View().book ==> Introduced(View().book[a], addr, source, penalty))
    {
      hide Inv, Abs, AddrManSpec.Enter, MayMultiply, Refresh, Announced, Introduced, WellPlaced;
      ViewPlaced(h, Now());
      AddRecords(h, View(), addr, source, penaltyIn, now, rnd);
      if !h.routable(addr.svc.ip) { return false; }
      var found, id := Find(addr.svc.ip);
      var penalty := if addr.svc.ip == source then 0 else penaltyIn;
      isNew := !found;
      if found {
        var more := Renew(id, addr, penalty, now, rnd);
        if !more { return; }
      } else {
        id := Admit(addr, source, penalty);
      }
      Enter(id, source, now);
    }

    /** The first quality nodes of a freshly shuffled order; `rnd(n)` is the draw made in round n. The
        shuffle moves the vector only, never the tables. Every answer is the record of a peer that is not
        terrible, no address comes twice, and all such peers are told unless the size cuts. */
    method GetAddr_(now: int, rnd: nat -> nat) returns (out: seq<Address>)
      requires Valid()
      modifies this`mapInfo, this`vRandom
      ensures Valid() && View() == old(View())
      ensures ListsOnce(Order(Now()), View().book.Keys)
      ensures var all, size := Quality(View().book, Order(Now()), now), AnswerSize(|View().book|);
              out == if size < |all| then all[..size] else all
      ensures forall q <- out ::
                q.svc.ip in View().book && View().book[q.svc.ip].addr == q && !IsTerrible(View().book[q.svc.ip], now)
      ensures AllDistinct(out) && |out| <= 2500 && 100 * |out| <= 23 * |View().book|
      ensures || |out| == 2500 || 100 * (|out| + 1) > 23 * |View().book|
              || forall a <- View().book | !IsTerrible(View().book[a], now) :: View().book[a].addr in out
    {
      hide Inv, Abs, Occupied, Swapped, ListsOnce, IsTerrible, Order, Quality, AllDistinct;
      ghost var book := View().book;
      InvOrder(h, Now());
      QualityNone(book, Order(Now()), now);
      ListsOnceSize(Order(Now()), book.Keys);
      var nodes := GETADDR_MAX_PCT * |vRandom| / 100;
      if nodes > GETADDR_MAX { nodes := GETADDR_MAX; }
      out := [];
      var n := 0;
      while n < |vRandom|
        invariant 0 <= n <= |vRandom| == old(|vRandom|) && |out| <= nodes
        invariant Valid() && View() == old(View())
        invariant out == Quality(book, Order(Now())[..n], now)
      {
        if |out| >= nodes { break; }
        var pos := rnd(n) % (|vRandom| - n) + n;
        InvOrder(h, Now());
        SwappedKeeps(h, Now(), n, pos, {});
        OrderSwapped(Now(), n, pos);
        SwapRandom(n, pos);
        QualityStep(h, Now(), n, now);
        var ai := mapInfo[vRandom[n]];
        if !IsTerrible(PeerOf(ai), now) {
          out := out + [ai.addr];
        }
        n := n + 1;
      }
      InvOrder(h, Now());
      EnoughOfThem(book, Order(Now()), n, nodes, now);
      QualityCut(book, Order(Now()), now, nodes);
    }

    /** One entry for itself. Looking its address up may put it in, with id 0. */
    method CheckEntry(n: int, ghost t: Tables) returns (code: int)
      requires n in mapInfo && Now() == t.(addr := mapAddr) && Filled(t.addr, mapAddr)
      modifies this`mapAddr
      ensures code == 0 <==> EntryPasses(t, n)
      ensures Filled(t.addr, mapAddr)
      ensures mapInfo[n].Ip() in t.addr ==> mapAddr == old(mapAddr)
    {
      var info := mapInfo[n];
      assert info == t.info[n] && vRandom == t.random;
      if info.inTried {
        if info.lastSuccess == 0 { return -1; }
        if info.refCount != 0 { return -2; }
      } else {
        if info.refCount < 0 || info.refCount > NEW_BUCKETS_PER_ADDRESS { return -3; }
        if info.refCount == 0 { return -4; }
      }
      if info.Ip() !in mapAddr { mapAddr := mapAddr[info.Ip() := 0]; }
      assert mapAddr[info.Ip()] == Looked(t.addr, info.Ip());
      if mapAddr[info.Ip()] != n { return -5; }
      if info.randomPos < 0 || info.randomPos >= |vRandom| || vRandom[info.randomPos] != n { return -14; }
      if info.lastTry < 0 { return -6; }
      if info.lastSuccess < 0 { return -8; }
      code := 0;
    }

    /** The first loop of Check_, over all entries by id: what the slots will be compared with. */
    method CheckEntries() returns (code: int, setTried: set<int>, mapNew: map<int, int>)
      modifies this`mapAddr
      ensures code == 0 <==> forall n <- mapInfo :: EntryPasses(old(Now()), n)
      ensures code == 0 ==> setTried == TriedIds(Now()) && CountsOf(Now(), mapNew, mapInfo.Keys)
      ensures Filled(old(mapAddr), mapAddr)
      ensures (forall n <- mapInfo :: mapInfo[n].Ip() in old(mapAddr)) ==> mapAddr == old(mapAddr)
    {
      hide EntryPasses, Filled, CountsOf, TriedIds;
      ghost var t := Now();
      var rest := mapInfo.Keys;
      code, setTried, mapNew := 0, {}, map[];
      EntriesStart(t);
      while rest != {}
        invariant rest <= mapInfo.Keys && code == 0
        invariant Now() == t.(addr := mapAddr) && Filled(t.addr, mapAddr)
        invariant forall n <- mapInfo.Keys - rest :: EntryPasses(t, n)
        invariant EntriesSeen(t, mapInfo.Keys - rest, setTried, mapNew)
        invariant (forall n <- mapInfo :: mapInfo[n].Ip() in t.addr) ==> mapAddr == t.addr
        decreases rest
      {
        ghost var least := LeastOf(rest);
        var n :| n in rest && forall m <- rest :: n <= m;
        code := CheckEntry(n, t);
        if code != 0 { return; }
        EntriesStep(t, mapInfo.Keys - rest, n, setTried, mapNew);
        assert mapInfo.Keys - (rest - {n}) == mapInfo.Keys - rest + {n};
        if mapInfo[n].inTried {
          setTried := setTried + {n};
        } else {
          mapNew := mapNew[n := mapInfo[n].refCount];
        }
        rest := rest - {n};
      }
      assert mapInfo.Keys - rest == t.info.Keys;
      EntriesEnd(t, Now(), setTried, mapNew);
    }

    /** One bucket of the tried table: every slot strikes its entry off. */
    method CheckTriedBucket(n: int, setTried: set<int>) returns (code: int, left: set<int>)
      requires Shape() && 0 <= n < TRIED_BUCKET_COUNT && TriedLeft(h, Now(), setTried, n, 0)
      ensures code == 0 ==> TriedLeft(h, Now(), left, n, BUCKET_SIZE)
      ensures code != 0 ==> !TriedPasses(h, Now())
    {
      hide Occupied, TriedLeft, TriedPasses;
      ghost var t := Now();
      left := setTried;
      for i := 0 to BUCKET_SIZE
        invariant TriedLeft(h, t, left, n, i)
      {
        var id := vvTried[n, i];
        OccupiedAt(vvTried, n, i);
        TriedLeftStep(h, t, left, n, i);
        if id != -1 {
          if id !in left { return -11, left; }
          if h.TriedBucket(nKey, mapInfo[id].addr.svc) != n { return -17, left; }
          if h.BucketPosition(nKey, false, n, mapInfo[id].addr.svc) != i { return -18, left; }
          left := left - {id};
        }
      }
      code := 0;
    }

    /** The loop over the tried table. */
    method CheckTriedTable(setTried: set<int>) returns (code: int, left: set<int>)
      requires Shape() && setTried == TriedIds(Now())
      ensures code == 0 <==> TriedPasses(h, Now())
      ensures code == 0 ==> (left == {} <==> forall n <- TriedIds(Now()) :: SlotsOf(Now().tried, n) != {})
    {
      OccupiedInside(vvTried);
      hide Occupied, TriedLeft, TriedPasses, TriedIds, SlotsOf;
      ghost var t := Now();
      left := setTried;
      TriedLeftStart(h, t);
      for n := 0 to TRIED_BUCKET_COUNT
        invariant TriedLeft(h, t, left, n, 0)
      {
        code, left := CheckTriedBucket(n, left);
        if code != 0 { return; }
        TriedLeftBucket(h, t, left, n);
      }
      TriedLeftEnd(h, t, left);
      code := 0;
    }

    /** One bucket of the new table: every slot takes one reference off its entry. */
    method CheckNewBucket(n: int, mapNew: map<int, int>) returns (code: int, left: map<int, int>)
      requires Shape() && 0 <= n < NEW_BUCKET_COUNT && NewLeft(h, Now(), mapNew, n, 0)
      ensures code == 0 ==> NewLeft(h, Now(), left, n, BUCKET_SIZE)
      ensures code != 0 ==> !(NewPasses(h, Now()) && CountsPass(Now()))
    {
      hide Occupied, NewLeft, NewPasses, CountsPass;
      ghost var t := Now();
      left := mapNew;
      for i := 0 to BUCKET_SIZE
        invariant NewLeft(h, t, left, n, i)
      {
        var id := vvNew[n, i];
        OccupiedAt(vvNew, n, i);
        NewLeftStep(h, t, left, n, i);
        if id != -1 {
          if id !in left { return -12, left; }
          if h.BucketPosition(nKey, true, n, mapInfo[id].addr.svc) != i { return -19, left; }
          ghost var was := left;
          left := left[id := left[id] - 1];
          if left[id] == 0 {
            left := left - {id};
            assert left == was - {id};
          }
        }
      }
      code := 0;
    }

    /** The loop over the new table. */
    method CheckNewTable(mapNew: map<int, int>) returns (code: int, left: map<int, int>)
      requires Shape() && CountsOf(Now(), mapNew, mapInfo.Keys)
      requires forall n <- NewIds(Now(), {}) :: mapInfo[n].refCount > 0
      ensures code == 0 ==> NewPasses(h, Now()) && (left == map[] <==> CountsPass(Now()))
      ensures code != 0 ==> !(NewPasses(h, Now()) && CountsPass(Now()))
    {
      OccupiedInside(vvNew);
      hide Occupied, NewLeft, NewPasses, CountsPass, CountsOf;
      ghost var t := Now();
      left := mapNew;
      NewLeftStart(h, t, left);
      for n := 0 to NEW_BUCKET_COUNT
        invariant NewLeft(h, t, left, n, 0)
      {
        code, left := CheckNewBucket(n, left);
        if code != 0 { return; }
        NewLeftBucket(h, t, left, n);
      }
      NewLeftEnd(h, t, left);
      code := 0;
    }

    /** The consistency check, in any state at all. It returns 0 exactly if its conditions
        hold, and then the state is consistent exactly if there are no strays. All it may change is to put
        id 0 in for addresses that are missing. */
    method Check_() returns (code: int)
      requires Shape()
      modifies this`mapAddr
      ensures code == 0 <==> CheckPasses(h, old(Now()))
      ensures Filled(old(mapAddr), mapAddr)
      ensures old(Valid()) <==> code == 0 && NoStrays(old(Now()))
      ensures NoStrays(old(Now())) ==> Now() == old(Now())
    {
      hide TriedPasses, NewPasses, CountsPass, EntryPasses, CountsOf, SlotsOf, TriedIds, NewIds, Filled, NoStrays, Inv;
      ghost var t := Now();
      ConsistentIffCheckPasses(h, t);
      NoStraysMapped(t);
      EntriesStart(t);
      if |vRandom| != nTried + nNew { return -7; }
      var setTried, mapNew;
      code, setTried, mapNew := CheckEntries();
      if code != 0 { return; }
      ghost var u := Now();
      LookupsAside(h, t, u);
      SizeCounted(u, mapNew);
      if |setTried| != nTried { return -9; }
      if |mapNew| != nNew { return -10; }
      var leftTried, leftNew;
      code, leftTried := CheckTriedTable(setTried);
      if code != 0 { return; }
      code, leftNew := CheckNewTable(mapNew);
      if code != 0 { return; }
      if leftTried != {} { return -13; }
      if leftNew != map[] { return -15; }
      if nKey == 0 { return -16; }
    }
  }
}

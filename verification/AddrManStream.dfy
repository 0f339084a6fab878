/** Saving the address manager to a stream and loading it back. The stream holds neither ids nor
    reference counts nor the tried table; loading rebuilds them. */
module AddrManStream {
  import opened AddrManTypes
  import opened AddrManSpec
  import opened AddrManSteps
  import opened Objects = AddrMan

  /** One unit written by the serializer. */
  datatype Token = TByte(b: nat) | TKey(key: nat) | TInt(n: int) | TInfo(peer: Peer)

  /** What the stream keeps of a peer: the time of the last try is memory only. */
  function Wire(p: Peer): Peer { p.(lastTry := 0) }

  ghost function Forget(p: Peers): Peers {
    p.(book := map a | a in p.book :: Wire(p.book[a]))
  }

  /** Exclusive or with bit 30. */
  function XorBit30(n: nat): nat {
    if n / 0x4000_0000 % 2 == 0 then n + 0x4000_0000 else n - 0x4000_0000
  }

  // ----- the format, over addresses

  ghost function Infos(book: map<NetAddr, Peer>, names: seq<NetAddr>): (s: seq<Token>)
    ensures |s| == |names|
  {
    seq(|names|, k requires 0 <= k < |names| =>
      TInfo(if names[k] in book then Wire(book[names[k]]) else Peer(Address(Service(0, 0), {}, 0), 0, 0, 0, 0)))
  }

  ghost function IndexOf(names: seq<NetAddr>, a: NetAddr): int {
    if exists k :: 0 <= k < |names| && names[k] == a
    then var k :| 0 <= k < |names| && names[k] == a; k
    else -1
  }

  /** The entries of bucket b below position i, in order. */
  ghost function Entries(m: map<Slot, NetAddr>, names: seq<NetAddr>, b: int, i: nat): seq<Token> {
    if i == 0 then []
    else
      Entries(m, names, b, i - 1)
      + if Slot(b, i - 1) in m then [TInt(IndexOf(names, m[Slot(b, i - 1)]))] else []
  }

  ghost function Buckets(m: map<Slot, NetAddr>, names: seq<NetAddr>, b: nat): seq<Token> {
    if b == 0 then []
    else
      var entries := Entries(m, names, b - 1, BUCKET_SIZE);
      Buckets(m, names, b - 1) + [TInt(|entries|)] + entries
  }

  ghost function Encode(p: Peers, news: seq<NetAddr>, trieds: seq<NetAddr>): seq<Token> {
    [TByte(1), TByte(32), TKey(p.key), TInt(|news|), TInt(|trieds|), TInt(XorBit30(NEW_BUCKET_COUNT))]
    + Infos(p.book, news) + Infos(p.book, trieds) + Buckets(p.new_, news, NEW_BUCKET_COUNT)
  }

  /** The two lists of a stream: each peer of one table once. */
  ghost predicate Listed(p: Peers, news: seq<NetAddr>, trieds: seq<NetAddr>) {
    && ListsOnce(news, set a | a in p.book && !IsTried(p, a))
    && ListsOnce(trieds, set a | a in p.book && IsTried(p, a))
  }

  // ----- writing

  /** The addresses of the entries below id n that `pick` selects, by id. */
  ghost function NamesBelow(t: Tables, n: nat, tried: bool): seq<NetAddr> {
    if n == 0 then []
    else
      NamesBelow(t, n - 1, tried)
      + if n - 1 in t.info && t.info[n - 1].inTried == tried then [t.info[n - 1].Ip()] else []
  }

  lemma {:induction false} NamesBelowNext(t: Tables, n: nat, tried: bool)
    ensures NamesBelow(t, 0, tried) == []
    ensures NamesBelow(t, n + 1, tried)
      == NamesBelow(t, n, tried) + if n in t.info && t.info[n].inTried == tried then [t.info[n].Ip()] else []
  {
  }

  ghost function AddrsBelow(t: Tables, n: nat, tried: bool): set<NetAddr> {
    set a | a in t.addr && (var k := t.addr[a]; k < n && k in t.info && t.info[k].inTried == tried)
  }

  lemma ListsOnceAppend(names: seq<NetAddr>, s: set<NetAddr>, a: NetAddr)
    requires ListsOnce(names, s) && a !in s
    ensures ListsOnce(names + [a], s + {a})
  {
    forall x | x in s + {a} ensures exists k :: 0 <= k < |names + [a]| && (names + [a])[k] == x {
      if x == a {
        assert (names + [a])[|names|] == x;
      } else {
        var k :| 0 <= k < |names| && names[k] == x;
        assert (names + [a])[k] == x;
      }
    }
  }

  lemma {:induction false} NamesBelowList(t: Tables, n: nat, tried: bool)
    requires AddrOk(t) && forall k <- t.info :: 0 <= k
    ensures ListsOnce(NamesBelow(t, n, tried), AddrsBelow(t, n, tried))
  {
    if n == 0 {
      forall a ensures a !in AddrsBelow(t, 0, tried) {
        if a in t.addr {
          var k := t.addr[a];
          assert k in t.info;
        }
      }
      assert AddrsBelow(t, n, tried) == {};
    } else {
      NamesBelowList(t, n - 1, tried);
      AddrsBelowStep(t, n, tried);
      if n - 1 in t.info && t.info[n - 1].inTried == tried {
        ListsOnceAppend(NamesBelow(t, n - 1, tried), AddrsBelow(t, n - 1, tried), t.info[n - 1].Ip());
      } else {
        assert NamesBelow(t, n, tried) == NamesBelow(t, n - 1, tried);
        assert AddrsBelow(t, n, tried) == AddrsBelow(t, n - 1, tried);
      }
    }
  }

  lemma AddrsBelowStep(t: Tables, n: nat, tried: bool)
    requires AddrOk(t) && n > 0
    ensures AddrsBelow(t, n, tried)
         == AddrsBelow(t, n - 1, tried)
            + if n - 1 in t.info && t.info[n - 1].inTried == tried then {t.info[n - 1].Ip()} else {}
    ensures n - 1 in t.info ==> t.info[n - 1].Ip() !in AddrsBelow(t, n - 1, tried)
  {
    if n - 1 in t.info {
      assert t.addr[t.info[n - 1].Ip()] == n - 1;
    }
    forall a | a in t.addr && t.addr[a] == n - 1 ensures n - 1 in t.info && t.info[n - 1].Ip() == a {
      var k := t.addr[a];
      assert k in t.info && t.info[k].Ip() == a;
    }
  }

  ghost function IdsBelow(t: Tables, n: nat, tried: bool): set<int> {
    set k | k in t.info && k < n && t.info[k].inTried == tried
  }

  lemma {:induction false} NamesBelowSize(t: Tables, n: nat, tried: bool)
    requires forall k <- t.info :: 0 <= k
    ensures |NamesBelow(t, n, tried)| == |IdsBelow(t, n, tried)|
  {
    if n == 0 {
      assert IdsBelow(t, n, tried) == {};
    } else {
      NamesBelowSize(t, n - 1, tried);
      NamesBelowNext(t, n - 1, tried);
      IdsBelowNext(t, n - 1, tried);
      hide NamesBelow, IdsBelow;
    }
  }

  lemma {:induction false} IdsBelowNext(t: Tables, n: nat, tried: bool)
    ensures |IdsBelow(t, n + 1, tried)|
         == |IdsBelow(t, n, tried)| + if n in t.info && t.info[n].inTried == tried then 1 else 0
  {
    assert IdsBelow(t, n + 1, tried)
        == IdsBelow(t, n, tried) + if n in t.info && t.info[n].inTried == tried then {n} else {};
  }

  lemma {:induction false} NamesBelowPrefix(t: Tables, m: nat, n: nat, tried: bool)
    requires m <= n
    ensures NamesBelow(t, m, tried) <= NamesBelow(t, n, tried)
  {
    if m < n {
      NamesBelowPrefix(t, m, n - 1, tried);
    }
  }

  /** The list for one table: complete, and as long as the table's counter says. */
  lemma FullList(h: Hashes, t: Tables, tried: bool)
    requires Inv(h, t, {})
    ensures var names := NamesBelow(t, t.idCount, tried);
            && ListsOnce(names, set a | a in Abs(t).book && IsTried(Abs(t), a) == tried)
            && |names| == if tried then t.nTried else t.nNew
  {
    hide RandomOk, TriedOk, NewOk, NamesBelow, ListsOnce, AddrsBelow, Abs, IsTried;
    ListSize(h, t, tried);
    ListSet(h, t, tried);
  }

  lemma ListSize(h: Hashes, t: Tables, tried: bool)
    requires Inv(h, t, {})
    ensures |NamesBelow(t, t.idCount, tried)| == if tried then t.nTried else t.nNew
    ensures ListsOnce(NamesBelow(t, t.idCount, tried), AddrsBelow(t, t.idCount, tried))
  {
    hide NamesBelow, ListsOnce, AddrsBelow, RandomOk;
    NamesBelowList(t, t.idCount, tried);
    NamesBelowSize(t, t.idCount, tried);
    AllIds(t, tried);
  }

  lemma ListSet(h: Hashes, t: Tables, tried: bool)
    requires Inv(h, t, {})
    ensures AddrsBelow(t, t.idCount, tried) == set a | a in Abs(t).book && IsTried(Abs(t), a) == tried
  {
    hide RandomOk, TriedOk, NewOk, Abs, IsTried, AddrsBelow;
    var s := set a | a in Abs(t).book && IsTried(Abs(t), a) == tried;
    forall a ensures a in AddrsBelow(t, t.idCount, tried) <==> a in s {
      FullListHas(h, t, tried, a);
    }
    assert AddrsBelow(t, t.idCount, tried) == s;
  }

  lemma AllIds(t: Tables, tried: bool)
    requires EntriesOk(t, {})
    ensures IdsBelow(t, t.idCount, tried) == if tried then TriedIds(t) else NewIds(t, {})
  {
  }

  lemma FullListHas(h: Hashes, t: Tables, tried: bool, a: NetAddr)
    requires Inv(h, t, {})
    ensures a in AddrsBelow(t, t.idCount, tried) <==> a in Abs(t).book && IsTried(Abs(t), a) == tried
  {
    hide RandomOk, TriedOk, NewOk, TriedIds, NewIds, BookOf, Names, Abs, IsTried;
    NoEntry(t, a);
    if a in t.addr {
      var k := t.addr[a];
      assert k in t.info && t.info[k].Ip() == a;
      EntryView(h, t, k, {});
    }
  }

  /** `unk` says at which place of the list each entry below n stands. */
  ghost predicate Indexed(t: Tables, unk: map<int, int>, n: nat) {
    var names := NamesBelow(t, n, false);
    forall k <- t.info | k < n && !t.info[k].inTried ::
      k in unk && 0 <= unk[k] < |names| && names[unk[k]] == t.info[k].Ip()
  }

  lemma {:induction false} IndexedStep(t: Tables, unk: map<int, int>, n: nat)
    requires Indexed(t, unk, n)
    ensures Indexed(t, if n in t.info then unk[n := |NamesBelow(t, n, false)|] else unk, n + 1)
  {
    NamesBelowNext(t, n, false);
    hide NamesBelow;
    var was, names := NamesBelow(t, n, false), NamesBelow(t, n + 1, false);
    var unk' := if n in t.info then unk[n := |was|] else unk;
    forall k | k in t.info && k < n + 1 && !t.info[k].inTried
      ensures k in unk' && 0 <= unk'[k] < |names| && names[unk'[k]] == t.info[k].Ip()
    {
      if k < n {
        assert was[unk[k]] == t.info[k].Ip();
      }
    }
  }

  lemma IndexUnique(names: seq<NetAddr>, s: set<NetAddr>, k: int)
    requires ListsOnce(names, s) && 0 <= k < |names|
    ensures IndexOf(names, names[k]) == k
  {
    var a := names[k];
    var i := IndexOf(names, a);
    assert 0 <= i < |names| && names[i] == a;
  }

  lemma InfosAppend(book: map<NetAddr, Peer>, names: seq<NetAddr>, a: NetAddr)
    requires a in book
    ensures Infos(book, names + [a]) == Infos(book, names) + [TInfo(Wire(book[a]))]
  {
  }

  /** One more id of the list: whether its entry is written, and that the list has room for it. */
  lemma {:induction false} WriteStep(h: Hashes, t: Tables, id: nat, tried: bool)
    requires Inv(h, t, {}) && id < t.idCount
    ensures var names, next := NamesBelow(t, id, tried), NamesBelow(t, id + 1, tried);
            if id in t.info && (if tried then t.info[id].inTried else t.info[id].refCount != 0) then
              && |next| == |names| + 1
              && |names| != (if tried then t.nTried else t.nNew)
              && Infos(Abs(t).book, next) == Infos(Abs(t).book, names) + [TInfo(Wire(PeerOf(t.info[id])))]
            else next == names
  {
    hide Inv, Abs, NamesBelow, Infos, ListsOnce, IsTried;
    NamesBelowNext(t, id, tried);
    if id in t.info {
      InvEntry(h, t, id);
      EntryView(h, t, id, {});
      CountZero(h, t, id);
      if t.info[id].inTried == tried {
        InfosAppend(Abs(t).book, NamesBelow(t, id, tried), t.info[id].Ip());
        NamesBelowPrefix(t, id + 1, t.idCount, tried);
        FullList(h, t, tried);
      }
    }
  }

  lemma CountZero(h: Hashes, t: Tables, n: int)
    requires Inv(h, t, {}) && n in t.info
    ensures t.info[n].inTried <==> t.info[n].refCount == 0
  {
  }

  /** Writes the peers of one table, in the order of their ids, and remembers the place of each. */
  method WriteInfos(m: AddrMan, tried: bool) returns (s: seq<Token>, unk: map<int, int>)
    requires m.Valid()
    ensures s == Infos(m.View().book, NamesBelow(m.Now(), m.nIdCount, tried))
    ensures !tried ==> Indexed(m.Now(), unk, m.nIdCount)
  {
    hide Inv, Abs, NamesBelow, Infos, Indexed, Occupied;
    s, unk := [], map[];
    var nIds := 0;
    ghost var t, book := m.Now(), m.View().book;
    WriteStart(m.h, t, tried);
    for id := 0 to m.nIdCount
      invariant s == Infos(book, NamesBelow(t, id, tried)) && nIds == |NamesBelow(t, id, tried)|
      invariant !tried ==> Indexed(t, unk, id)
    {
      if !tried { IndexedStep(t, unk, id); }
      WriteStep(m.h, t, id, tried);
      if id in m.mapInfo {
        unk := unk[id := nIds];
        var info := m.mapInfo[id];
        if (if tried then info.inTried else info.refCount != 0) {
          assert nIds != if tried then m.nTried else m.nNew;
          s := s + [TInfo(Wire(PeerOf(info)))];
          nIds := nIds + 1;
        }
      }
    }
  }

  lemma WriteStart(h: Hashes, t: Tables, tried: bool)
    requires Inv(h, t, {})
    ensures 0 <= t.idCount && Infos(Abs(t).book, NamesBelow(t, 0, tried)) == [] && |NamesBelow(t, 0, tried)| == 0
    ensures Indexed(t, map[], 0)
  {
  }

  /** The place in the stream of whoever holds a new slot. */
  lemma SlotIndex(h: Hashes, t: Tables, unk: map<int, int>, s: Slot)
    requires Inv(h, t, {}) && s in t.new_ && Indexed(t, unk, t.idCount)
    ensures s in Abs(t).new_ && t.new_[s] in unk
    ensures unk[t.new_[s]] == IndexOf(NamesBelow(t, t.idCount, false), Abs(t).new_[s])
  {
    var n := t.new_[s];
    assert n in t.info && !t.info[n].inTried && n < t.idCount;
    SlotView(h, t, s);
    FullList(h, t, false);
    IndexUnique(NamesBelow(t, t.idCount, false), (set a | a in Abs(t).book && IsTried(Abs(t), a) == false), unk[n]);
  }

  lemma BothLists(h: Hashes, t: Tables)
    requires Inv(h, t, {})
    ensures t.idCount >= 0 && Abs(t).key == t.key
    ensures var news, trieds := NamesBelow(t, t.idCount, false), NamesBelow(t, t.idCount, true);
            Listed(Abs(t), news, trieds) && |news| == t.nNew && |trieds| == t.nTried
  {
    hide RandomOk, AddrOk, TriedOk, NewOk, TriedIds, NewIds, BookOf, Names, IsTried, ListsOnce, NamesBelow;
    FullList(h, t, false);
    FullList(h, t, true);
    var p := Abs(t);
    assert (set a | a in p.book && !IsTried(p, a)) == (set a | a in p.book && IsTried(p, a) == false);
    assert (set a | a in p.book && IsTried(p, a)) == (set a | a in p.book && IsTried(p, a) == true);
  }

  lemma BucketsStart(m: map<Slot, NetAddr>, names: seq<NetAddr>)
    ensures Buckets(m, names, 0) == []
  {
  }

  lemma BucketsStep(m: map<Slot, NetAddr>, names: seq<NetAddr>, b: nat)
    ensures var entries := Entries(m, names, b, BUCKET_SIZE);
            Buckets(m, names, b + 1) == Buckets(m, names, b) + ([TInt(|entries|)] + entries)
  {
  }

  /** The number of occupied positions of a new bucket. */
  method BucketCount(m: AddrMan, b: int, ghost names: seq<NetAddr>) returns (nSize: nat)
    requires m.Valid() && 0 <= b < NEW_BUCKET_COUNT
    ensures nSize == |Entries(m.View().new_, names, b, BUCKET_SIZE)|
  {
    hide RandomOk, AddrOk, TriedOk, NewOk, EntriesOk, TriedIds, NewIds, BookOf, Names, Abs;
    nSize := 0;
    ghost var t, new_ := m.Now(), m.View().new_;
    for i := 0 to BUCKET_SIZE
      invariant nSize == |Entries(new_, names, b, i)|
    {
      SlotView(m.h, t, Slot(b, i));
      if m.vvNew[b, i] != -1 { nSize := nSize + 1; }
    }
  }

  method WriteBucket(m: AddrMan, b: int, unk: map<int, int>, ghost names: seq<NetAddr>) returns (s: seq<Token>)
    requires m.Valid() && 0 <= b < NEW_BUCKET_COUNT && m.nIdCount >= 0
    requires Indexed(m.Now(), unk, m.nIdCount) && names == NamesBelow(m.Now(), m.nIdCount, false)
    ensures var entries := Entries(m.View().new_, names, b, BUCKET_SIZE); s == [TInt(|entries|)] + entries
  {
    hide RandomOk, AddrOk, TriedOk, NewOk, EntriesOk, TriedIds, NewIds, BookOf, Names, Abs, Indexed;
    ghost var t, new_ := m.Now(), m.View().new_;
    var nSize := BucketCount(m, b, names);
    s := [TInt(nSize)];
    for i := 0 to BUCKET_SIZE
      invariant s == [TInt(nSize)] + Entries(new_, names, b, i)
    {
      SlotView(m.h, t, Slot(b, i));
      if m.vvNew[b, i] != -1 {
        SlotIndex(m.h, t, unk, Slot(b, i));
        s := s + [TInt(unk[m.vvNew[b, i]])];
      }
    }
  }

  method WriteBuckets(m: AddrMan, unk: map<int, int>, ghost names: seq<NetAddr>) returns (s: seq<Token>)
    requires m.Valid() && m.nIdCount >= 0
    requires Indexed(m.Now(), unk, m.nIdCount) && names == NamesBelow(m.Now(), m.nIdCount, false)
    ensures s == Buckets(m.View().new_, names, NEW_BUCKET_COUNT)
  {
    hide Inv, Abs, Indexed, Buckets;
    ghost var new_ := m.View().new_;
    s := [];
    BucketsStart(new_, names);
    for b := 0 to NEW_BUCKET_COUNT
      invariant s == Buckets(new_, names, b)
    {
      var bucket := WriteBucket(m, b, unk, names);
      BucketsStep(new_, names, b);
      s := s + bucket;
    }
  }

  /** The orders in which the two lists of a manager come out: by id. */
  ghost function News(m: AddrMan): seq<NetAddr>
    requires m.nIdCount >= 0
    reads m, m.vvTried, m.vvNew
  {
    NamesBelow(m.Now(), m.nIdCount, false)
  }

  ghost function Trieds(m: AddrMan): seq<NetAddr>
    requires m.nIdCount >= 0
    reads m, m.vvTried, m.vvNew
  {
    NamesBelow(m.Now(), m.nIdCount, true)
  }

  /** Where the parts of a stream lie. */
  lemma StreamParts(p: Peers, news: seq<NetAddr>, trieds: seq<NetAddr>)
    ensures var s := Encode(p, news, trieds);
            && |s| >= 6 + |news| + |trieds|
            && s[..6]
               == [TByte(1), TByte(32), TKey(p.key), TInt(|news|), TInt(|trieds|), TInt(XorBit30(NEW_BUCKET_COUNT))]
            && s[6..6 + |news|] == Infos(p.book, news)
            && s[6 + |news|..6 + |news| + |trieds|] == Infos(p.book, trieds)
            && s[6 + |news| + |trieds|..] == Buckets(p.new_, news, NEW_BUCKET_COUNT)
  {
    hide Infos, Buckets;
    var head := [TByte(1), TByte(32), TKey(p.key), TInt(|news|), TInt(|trieds|), TInt(XorBit30(NEW_BUCKET_COUNT))];
    FourParts(head, Infos(p.book, news), Infos(p.book, trieds), Buckets(p.new_, news, NEW_BUCKET_COUNT));
  }

  lemma FourParts(a: seq<Token>, b: seq<Token>, c: seq<Token>, d: seq<Token>)
    ensures var s, m, n := a + b + c + d, |a| + |b|, |a| + |b| + |c|;
            |s| >= n && s[..|a|] == a && s[|a|..m] == b && s[m..n] == c && s[n..] == d
  {
  }

  lemma InfosSay(book: map<NetAddr, Peer>, names: seq<NetAddr>, k: nat)
    requires k < |names| && names[k] in book
    ensures Tells(Infos(book, names)[k], book[names[k]])
  {
  }

  /** A token with all of a peer's record but the time of the last try. */
  ghost predicate Tells(token: Token, p: Peer) {
    && token.TInfo?
    && token.peer.addr == p.addr && token.peer.source == p.source
    && token.peer.lastSuccess == p.lastSuccess && token.peer.attempts == p.attempts && token.peer.lastTry == 0
  }

  /** The stream of a consistent manager lists all of its peers: after version, key size, key and the sizes
      come the records of the new peers and those of the tried ones, then the slots of the new table. */
  method Serialize(m: AddrMan) returns (s: seq<Token>)
    requires m.Valid()
    ensures m.nIdCount >= 0 && Listed(m.View(), News(m), Trieds(m))
    ensures s == Encode(m.View(), News(m), Trieds(m))
    ensures |s| >= 6 + |News(m)| + |Trieds(m)|
    ensures s[..6] == [TByte(1), TByte(32), TKey(m.nKey), TInt(m.nNew), TInt(m.nTried), TInt(0x4000_0400)]
    ensures forall k | 0 <= k < |News(m)| ::
              News(m)[k] in m.View().book && Tells(s[6 + k], m.View().book[News(m)[k]])
    ensures forall k | 0 <= k < |Trieds(m)| ::
              Trieds(m)[k] in m.View().book && Tells(s[6 + |News(m)| + k], m.View().book[Trieds(m)[k]])
  {
    hide Inv, Abs, Indexed, Listed, Infos, Buckets, Encode, Occupied, NamesBelow, Tells;
    BothLists(m.h, m.Now());
    ghost var p, news, trieds := m.View(), News(m), Trieds(m);
    RecordsTold(p, news, trieds);
    EncodeIs(p, news, trieds);
    s := [TByte(1), TByte(32), TKey(m.nKey), TInt(m.nNew), TInt(m.nTried), TInt(XorBit30(NEW_BUCKET_COUNT))];
    var newInfos, unk := WriteInfos(m, false);
    var triedInfos, unused := WriteInfos(m, true);
    var buckets := WriteBuckets(m, unk, news);
    s := s + newInfos + triedInfos + buckets;
    assert s == Encode(p, news, trieds);
  }

  lemma EncodeIs(p: Peers, news: seq<NetAddr>, trieds: seq<NetAddr>)
    ensures Encode(p, news, trieds)
      == [TByte(1), TByte(32), TKey(p.key), TInt(|news|), TInt(|trieds|), TInt(XorBit30(NEW_BUCKET_COUNT))]
         + Infos(p.book, news) + Infos(p.book, trieds) + Buckets(p.new_, news, NEW_BUCKET_COUNT)
  {
  }

  lemma {:induction false} RecordsTold(p: Peers, news: seq<NetAddr>, trieds: seq<NetAddr>)
    requires Listed(p, news, trieds)
    ensures var s := Encode(p, news, trieds);
            && |s| >= 6 + |news| + |trieds|
            && s[..6] == [TByte(1), TByte(32), TKey(p.key), TInt(|news|), TInt(|trieds|), TInt(0x4000_0400)]
            && (forall k | 0 <= k < |news| :: news[k] in p.book && Tells(s[6 + k], p.book[news[k]]))
            && (forall k | 0 <= k < |trieds| :: trieds[k] in p.book && Tells(s[6 + |news| + k], p.book[trieds[k]]))
  {
    hide Encode, Infos, Buckets, Tells, IsTried;
    var s := Encode(p, news, trieds);
    StreamParts(p, news, trieds);
    forall k | 0 <= k < |news| ensures news[k] in p.book && Tells(s[6 + k], p.book[news[k]]) {
      InfosSay(p.book, news, k);
      assert s[6..6 + |news|][k] == s[6 + k];
    }
    forall k | 0 <= k < |trieds| ensures trieds[k] in p.book && Tells(s[6 + |news| + k], p.book[trieds[k]]) {
      InfosSay(p.book, trieds, k);
      assert s[6 + |news|..6 + |news| + |trieds|][k] == s[6 + |news| + k];
    }
  }
}

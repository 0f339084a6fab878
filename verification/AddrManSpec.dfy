/** What the address manager does, said without ids, reference counts, the random vector or the
    counters: a book of peers by address, and which address each occupied slot names. */
module AddrManSpec {
  import opened AddrManTypes
  import Bits

  datatype Peers = Peers(
    key: nat,
    book: map<NetAddr, Peer>,
    new_: map<Slot, NetAddr>,
    tried: map<Slot, NetAddr>)

  ghost function BookOf(info: map<int, AddrInfo>, addr: map<NetAddr, int>): map<NetAddr, Peer> {
    map a | a in addr && (var n := addr[a]; n in info) :: (var n := addr[a]; PeerOf(info[n]))
  }

  /** A table of ids, read as a table of addresses. */
  ghost function Names(info: map<int, AddrInfo>, m: map<Slot, int>): map<Slot, NetAddr> {
    map s | s in m && (var n := m[s]; n in info) :: (var n := m[s]; info[n].Ip())
  }

  ghost function Abs(t: Tables): Peers {
    Peers(t.key, BookOf(t.info, t.addr), Names(t.info, t.new_), Names(t.info, t.tried))
  }

  ghost predicate IsTried(p: Peers, a: NetAddr) { SlotsOf(p.tried, a) != {} }

  ghost function Refs(p: Peers, a: NetAddr): nat { |SlotsOf(p.new_, a)| }

  /** Entries that no operation in progress holds on to are in exactly one table; each sits where its
      hashes put it. */
  ghost predicate WellPlaced(h: Hashes, p: Peers, limbo: set<NetAddr>) {
    && limbo <= p.book.Keys
    && (forall a <- p.book :: p.book[a].addr.svc.ip == a)
    && (forall s <- p.new_ ::
          && InNewTable(s) && p.new_[s] in p.book && p.new_[s] !in limbo
          && s.pos == h.BucketPosition(p.key, true, s.bucket, p.book[p.new_[s]].addr.svc))
    && (forall s <- p.tried ::
          && p.tried[s] in p.book && p.tried[s] !in limbo
          && s == h.TriedSlot(p.key, p.book[p.tried[s]].addr.svc))
    && (forall a <- p.book | a !in limbo ::
          && (IsTried(p, a) <==> Refs(p, a) == 0)
          && Refs(p, a) <= NEW_BUCKETS_PER_ADDRESS)
  }

  /** Empties a slot of the new table; an address that was only there is forgotten. */
  ghost function ClearNew(p: Peers, s: Slot): Peers {
    if s !in p.new_ then p
    else
      var a, rest := p.new_[s], p.new_ - {s};
      p.(new_ := rest, book := if SlotsOf(rest, a) == {} then p.book - {a} else p.book)
  }

  /** Sends the peer in a tried slot back to the new slot its own source selects. */
  ghost function Evict(h: Hashes, p: Peers, ts: Slot): Peers {
    if ts !in p.tried || p.tried[ts] !in p.book then p
    else
      var b := p.tried[ts];
      var us := h.NewSlot(p.key, p.book[b].addr.svc, p.book[b].source);
      var q := ClearNew(p.(tried := p.tried - {ts}), us);
      q.(new_ := q.new_[us := b])
  }

  ghost function MakeTried(h: Hashes, p: Peers, a: NetAddr): Peers
    requires a in p.book
  {
    var ts := h.TriedSlot(p.key, p.book[a].addr.svc);
    var q := Evict(h, p.(new_ := p.new_ - SlotsOf(p.new_, a)), ts);
    q.(tried := q.tried[ts := a])
  }

  ghost function Good(h: Hashes, p: Peers, svc: Service, time: int): Peers {
    if svc.ip !in p.book || p.book[svc.ip].addr.svc != svc then p
    else
      var a := svc.ip;
      var q := p.(book := p.book[a := p.book[a].(lastSuccess := time, lastTry := time, attempts := 0)]);
      if IsTried(q, a) then q else MakeTried(h, q, a)
  }

  ghost function Attempt(p: Peers, svc: Service, time: int): Peers {
    if svc.ip !in p.book || p.book[svc.ip].addr.svc != svc then p
    else p.(book := p.book[svc.ip := p.book[svc.ip].(lastTry := time, attempts := p.book[svc.ip].attempts + 1)])
  }

  ghost function Connected(p: Peers, svc: Service, time: int): Peers {
    if svc.ip !in p.book || p.book[svc.ip].addr.svc != svc then p
    else if time - p.book[svc.ip].addr.time > 20 * 60 then
      var peer := p.book[svc.ip];
      p.(book := p.book[svc.ip := peer.(addr := peer.addr.(time := ToU32(time)))])
    else p
  }

  /** The refreshed record of a known peer that is announced again. */
  function Refresh(known: Peer, addr: Address, penalty: int, now: int): Peer {
    var interval := if now - addr.time < 24 * 60 * 60 then 60 * 60 else 24 * 60 * 60;
    var time :=
      if addr.time != 0 && (known.addr.time == 0 || known.addr.time < addr.time - interval - penalty)
      then ToU32(if addr.time - penalty > 0 then addr.time - penalty else 0)
      else known.addr.time;
    known.(addr := known.addr.(time := time, services := known.addr.services + addr.services))
  }

  /** Whether a known peer announced again may take another new slot; `rnd(k)` is a draw below k. */
  ghost predicate MayMultiply(p: Peers, a: NetAddr, addr: Address, rnd: nat -> nat)
    requires a in p.book
  {
    && addr.time != 0
    && (p.book[a].addr.time == 0 || p.book[a].addr.time < addr.time)
    && !IsTried(p, a)
    && Refs(p, a) != NEW_BUCKETS_PER_ADDRESS
    && (Refs(p, a) == 0 || rnd(Bits.Pow2(Refs(p, a))) == 0)
  }

  /** Tries to enter `a` into the new slot that `source` selects for it. */
  ghost function Enter(h: Hashes, p: Peers, a: NetAddr, source: NetAddr, now: int): Peers
    requires a in p.book
  {
    var us := h.NewSlot(p.key, p.book[a].addr.svc, source);
    if us in p.new_ && p.new_[us] == a then p
    else if us !in p.new_ || p.new_[us] !in p.book
            || IsTerrible(p.book[p.new_[us]], now) || (Refs(p, p.new_[us]) > 1 && Refs(p, a) == 0) then
      var q := ClearNew(p, us);
      q.(new_ := q.new_[us := a])
    else if Refs(p, a) == 0 then p.(book := p.book - {a})
    else p
  }

  ghost function Add(h: Hashes, p: Peers, addr: Address, source: NetAddr, penaltyIn: int, now: int,
                     rnd: nat -> nat): Peers
  {
    var a := addr.svc.ip;
    var penalty := if a == source then 0 else penaltyIn;
    if !h.routable(a) then p
    else if a in p.book then
      var q := p.(book := p.book[a := Refresh(p.book[a], addr, penalty, now)]);
      if MayMultiply(q, a, addr, rnd) then Enter(h, q, a, source, now) else q
    else
      var time := ToU32(if addr.time - penalty > 0 then addr.time - penalty else 0);
      var q := p.(book := p.book[a := Peer(addr.(time := time), source, 0, 0, 0)]);
      Enter(h, q, a, source, now)
  }

  /** The peers worth telling others about, in the order their addresses are listed. */
  ghost function Quality(book: map<NetAddr, Peer>, names: seq<NetAddr>, now: int): seq<Address> {
    if names == [] then []
    else
      var last := names[|names| - 1];
      Quality(book, names[..|names| - 1], now)
      + if last in book && !IsTerrible(book[last], now) then [book[last].addr] else []
  }

  /** How many addresses one answer may hold: 23 percent of the book, and at most 2500. */
  function AnswerSize(n: nat): nat {
    var k := GETADDR_MAX_PCT * n / 100;
    if k > GETADDR_MAX then GETADDR_MAX else k
  }

  /** The addresses in the manager's random order. */
  ghost function Order(t: Tables): (names: seq<NetAddr>)
    ensures |names| == |t.random|
  {
    seq(|t.random|, k requires 0 <= k < |t.random| =>
      var n := t.random[k]; if n in t.info then t.info[n].Ip() else 0)
  }

  ghost predicate ListsOnce(names: seq<NetAddr>, s: set<NetAddr>) {
    && (forall k | 0 <= k < |names| :: names[k] in s)
    && (forall a <- s :: exists k :: 0 <= k < |names| && names[k] == a)
    && (forall j, k | 0 <= j < k < |names| :: names[j] != names[k])
  }
}

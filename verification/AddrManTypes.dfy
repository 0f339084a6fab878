/** The entities of the address manager: peers, bucket slots, the five tables that hold one set of
    peers, and the consistency condition those tables must keep. */
module AddrManTypes {

  const TRIED_BUCKET_COUNT := 256
  const NEW_BUCKET_COUNT := 1024
  const BUCKET_SIZE := 64
  const NEW_BUCKETS_PER_ADDRESS := 8
  const HORIZON_DAYS := 30
  const RETRIES := 3
  const MAX_FAILURES := 10
  const MIN_FAIL_DAYS := 7
  const GETADDR_MAX_PCT := 23
  const GETADDR_MAX := 2500

  /** A 16-byte network address, as a number. */
  type NetAddr = nat

  datatype Service = Service(ip: NetAddr, port: nat)

  /** `services` is a bit mask, as the set of its bits. */
  datatype Address = Address(svc: Service, services: set<nat>, time: nat)

  datatype AddrInfo = AddrInfo(
    addr: Address,
    source: NetAddr,
    lastSuccess: int,
    lastTry: int,
    attempts: int,
    refCount: int,
    inTried: bool,
    randomPos: int)
  {
    function Ip(): NetAddr { addr.svc.ip }
  }

  /** What an entry means once the bookkeeping fields are dropped. */
  datatype Peer = Peer(addr: Address, source: NetAddr, lastSuccess: int, lastTry: int, attempts: int)

  function PeerOf(i: AddrInfo): Peer {
    Peer(i.addr, i.source, i.lastSuccess, i.lastTry, i.attempts)
  }

  datatype Slot = Slot(bucket: int, pos: int)

  /** The keyed hashes and the routability test, uninterpreted. */
  datatype Hashes = Hashes(
    tried: (nat, Service) -> nat,
    new_: (nat, NetAddr, NetAddr) -> nat,
    position: (nat, bool, int, Service) -> nat,
    routable: NetAddr -> bool)
  {
    function TriedBucket(key: nat, svc: Service): nat {
      tried(key, svc) % TRIED_BUCKET_COUNT
    }

    function NewBucket(key: nat, svc: Service, source: NetAddr): nat {
      new_(key, svc.ip, source) % NEW_BUCKET_COUNT
    }

    function BucketPosition(key: nat, isNew: bool, bucket: int, svc: Service): nat {
      position(key, isNew, bucket, svc) % BUCKET_SIZE
    }

    function TriedSlot(key: nat, svc: Service): (s: Slot)
      ensures 0 <= s.bucket < 256 && 0 <= s.pos < 64
    {
      var b := TriedBucket(key, svc);
      Slot(b, BucketPosition(key, false, b, svc))
    }

    function NewSlot(key: nat, svc: Service, source: NetAddr): (s: Slot)
      ensures 0 <= s.bucket < 1024 && 0 <= s.pos < 64
    {
      var b := NewBucket(key, svc, source);
      Slot(b, BucketPosition(key, true, b, svc))
    }
  }

  /** A 64-bit value stored into a 32-bit unsigned field. */
  function ToU32(x: int): nat { x % 0x1_0000_0000 }

  predicate IsTerrible(p: Peer, now: int) {
    if p.lastTry != 0 && p.lastTry >= now - 60 then false
    else if p.addr.time > now + 10 * 60 then true
    else if p.addr.time == 0 || now - p.addr.time > HORIZON_DAYS * 24 * 60 * 60 then true
    else if p.lastSuccess == 0 && p.attempts >= RETRIES then true
    else now - p.lastSuccess > MIN_FAIL_DAYS * 24 * 60 * 60 && p.attempts >= MAX_FAILURES
  }

  /** One moment of the manager: the two maps, the random order, both tables and the counters.
      A table is the partial map of its occupied slots. */
  datatype Tables = Tables(
    key: nat,
    idCount: int,
    info: map<int, AddrInfo>,
    addr: map<NetAddr, int>,
    random: seq<int>,
    nTried: int,
    tried: map<Slot, int>,
    nNew: int,
    new_: map<Slot, int>)

  ghost function SlotsOf<T(!new)>(m: map<Slot, T>, n: T): set<Slot> {
    set s | s in m && m[s] == n
  }

  predicate InNewTable(s: Slot) { 0 <= s.bucket < NEW_BUCKET_COUNT && 0 <= s.pos < BUCKET_SIZE }

  // ----- the consistency condition, table by table

  ghost predicate RandomOk(t: Tables) {
    && (forall n <- t.info :: var k := t.info[n].randomPos; 0 <= k < |t.random| && t.random[k] == n)
    && (forall k | 0 <= k < |t.random| :: var n := t.random[k]; n in t.info && t.info[n].randomPos == k)
  }

  ghost predicate AddrOk(t: Tables) {
    && (forall a <- t.addr :: var n := t.addr[a]; n in t.info && t.info[n].Ip() == a)
    && (forall n <- t.info :: var a := t.info[n].Ip(); a in t.addr && t.addr[a] == n)
  }

  ghost predicate TriedOk(h: Hashes, t: Tables) {
    && (forall s <- t.tried ::
          var n := t.tried[s];
          n in t.info && t.info[n].inTried && s == h.TriedSlot(t.key, t.info[n].addr.svc))
    && (forall n <- t.info | t.info[n].inTried ::
          var s := h.TriedSlot(t.key, t.info[n].addr.svc); s in t.tried && t.tried[s] == n)
  }

  ghost predicate NewOk(h: Hashes, t: Tables) {
    && (forall s <- t.new_ ::
          var n := t.new_[s];
          && InNewTable(s) && n in t.info && !t.info[n].inTried
          && s.pos == h.BucketPosition(t.key, true, s.bucket, t.info[n].addr.svc))
    && (forall n <- t.info :: t.info[n].refCount == |SlotsOf(t.new_, n)|)
  }

  ghost predicate EntriesOk(t: Tables, limbo: set<int>) {
    && limbo <= t.info.Keys && 0 <= t.idCount
    && (forall n <- t.info ::
          && 0 <= n < t.idCount
          && t.info[n].lastTry >= 0 && t.info[n].lastSuccess >= 0
          && (t.info[n].inTried ==> t.info[n].lastSuccess > 0 && n !in limbo)
          && (if t.info[n].inTried || n in limbo then t.info[n].refCount == 0
              else 1 <= t.info[n].refCount <= NEW_BUCKETS_PER_ADDRESS))
  }

  ghost function TriedIds(t: Tables): set<int> {
    set n | n in t.info && t.info[n].inTried
  }

  ghost function NewIds(t: Tables, limbo: set<int>): set<int> {
    set n | n in t.info && !t.info[n].inTried && n !in limbo
  }

  /** All of it. `limbo` names the entries that an operation in progress has taken out of both
      tables (or has not yet put into one); between operations it is empty. */
  ghost predicate Inv(h: Hashes, t: Tables, limbo: set<int>) {
    && t.key != 0
    && RandomOk(t) && AddrOk(t) && TriedOk(h, t) && NewOk(h, t) && EntriesOk(t, limbo)
    && t.nTried == |TriedIds(t)|
    && t.nNew == |NewIds(t, limbo)|
  }
}

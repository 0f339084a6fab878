/** Whole runs of the manager: its own consistency check accepts every reachable state, and the peers are
    what the specification says. */
module AddrManTheorems {
  import opened AddrManTypes
  import opened AddrManSpec
  import opened AddrManSteps
  import opened AddrManCheck
  import opened AddrManPeers
  import opened Objects = AddrMan

  datatype Op =
    | OpAdd(addr: Address, source: NetAddr, penalty: int, now: int, draw: nat -> nat)
    | OpGood(svc: Service, time: int, start: nat)
    | OpAttempt(svc: Service, time: int)
    | OpConnected(svc: Service, time: int)
    | OpGetAddr(now: int, draw: nat -> nat)

  /** Times come from the clock, which has passed the epoch; the search start is a draw below the
      number of buckets. */
  predicate OpOk(op: Op) {
    && (op.OpGood? ==> op.time > 0 && op.start < NEW_BUCKET_COUNT)
    && (op.OpAttempt? ==> op.time >= 0)
  }

  ghost function Apply(h: Hashes, p: Peers, op: Op): Peers {
    match op
    case OpAdd(addr, source, penalty, now, draw) => Add(h, p, addr, source, penalty, now, draw)
    case OpGood(svc, time, _) => Good(h, p, svc, time)
    case OpAttempt(svc, time) => Attempt(p, svc, time)
    case OpConnected(svc, time) => Connected(p, svc, time)
    case OpGetAddr(_, _) => p
  }

  ghost function ApplyAll(h: Hashes, p: Peers, ops: seq<Op>): Peers {
    if ops == [] then p else Apply(h, ApplyAll(h, p, ops[..|ops| - 1]), ops[|ops| - 1])
  }

  /** Performs one operation. */
  method Perform(m: AddrMan, op: Op)
    requires m.Valid() && OpOk(op)
    modifies m, m.vvNew, m.vvTried
    ensures m.Valid() && m.View() == Apply(m.h, old(m.View()), op)
  {
    hide Inv, Abs, Add, Good, Attempt, Connected, WellPlaced;
    match op
    case OpAdd(addr, source, penalty, now, draw) =>
      var isNew := m.Add_(addr, source, penalty, now, draw);
    case OpGood(svc, time, start) => m.Good_(svc, time, start);
    case OpAttempt(svc, time) => m.Attempt_(svc, time);
    case OpConnected(svc, time) => m.Connected_(svc, time);
    case OpGetAddr(now, draw) =>
      var out := m.GetAddr_(now, draw);
  }

  /** Any sequence of operations on a new manager leaves it consistent and holding exactly the peers
      that the specification gives, and Check_ finds nothing wrong then. */
  method Replay(h: Hashes, key: nat, ops: seq<Op>) returns (m: AddrMan, code: int)
    requires key != 0
    requires forall op <- ops :: OpOk(op)
    ensures m.Valid() && code == 0
    ensures m.View() == ApplyAll(h, Peers(key, map[], map[], map[]), ops)
    ensures WellPlaced(h, m.View(), {})
  {
    hide Inv, Abs, Apply, ApplyAll, CheckPasses, NoStrays, WellPlaced, OpOk, Occupied;
    m := new AddrMan(h, key);
    ghost var p0 := m.View();
    NoOps(h, p0, ops);
    for k := 0 to |ops|
      invariant fresh(m) && fresh(m.vvNew) && fresh(m.vvTried)
      invariant m.h == h && m.Valid() && m.View() == ApplyAll(h, p0, ops[..k])
    {
      OpsStep(h, p0, ops, k);
      assert ops[k] in ops;
      Perform(m, ops[k]);
    }
    assert ops[..|ops|] == ops;
    ConsistentPassesCheck(h, m.Now());
    ViewPlaced(h, m.Now());
    code := m.Check_();
  }

  lemma NoOps(h: Hashes, p: Peers, ops: seq<Op>)
    ensures ApplyAll(h, p, ops[..0]) == p
  {
  }

  lemma OpsStep(h: Hashes, p: Peers, ops: seq<Op>, k: nat)
    requires k < |ops|
    ensures ApplyAll(h, p, ops[..k + 1]) == Apply(h, ApplyAll(h, p, ops[..k]), ops[k])
  {
    hide Apply;
    assert ops[..k + 1][..k] == ops[..k];
  }
}

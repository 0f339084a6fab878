/** Any use of a stack of caches, of any depth, against plain maps. */
module CoinsStack {
  import opened Coins
  import opened Common
  import opened CoinsCache

  /** What a client does to the topmost cache. A modifier either replaces the coins or spends an output. */
  datatype Op =
    | OpRead(t: Txid)
    | OpSet(t: Txid, coins: Coins)
    | OpSpend(t: Txid, n: nat)
    | OpPush
    | OpPop
    | OpFlush

  /** The effect of one operation on the levels of transaction t: plain maps, one per level. */
  function Step(op: Op, t: Txid, ls: seq<Option<Coins>>): (r: seq<Option<Coins>>)
    requires |ls| >= 2
    ensures |r| >= 2
  {
    var last := |ls| - 1;
    match op
    case OpRead(_) => ls
    case OpSet(x, c) => if x == t then ls[last := Seen(CleanedUp(c))] else ls
    case OpSpend(x, n) => if x == t && ls[last].Some? then ls[last := Seen(Spend(ls[last].value, n).1)] else ls
    case OpPush => ls + [ls[last]]
    case OpPop => if |ls| > 2 then ls[..last] else ls
    case OpFlush => CoinsViewCache.Flushed(ls)
  }

  function Steps(ops: seq<Op>, t: Txid, ls: seq<Option<Coins>>): (r: seq<Option<Coins>>)
    requires |ls| >= 2
    ensures |r| >= 2
  {
    if ops == [] then ls else Step(ops[|ops| - 1], t, Steps(ops[..|ops| - 1], t, ls))
  }

  /** The answers to the reads among the operations. */
  function Answers(ops: seq<Op>): seq<Option<Coins>> {
    if ops == [] then []
    else
      var rest, op := ops[..|ops| - 1], ops[|ops| - 1];
      var ls := if op.OpRead? then Steps(rest, op.t, [None, None]) else [None, None];
      Answers(rest) + if op.OpRead? then [ls[|ls| - 1]] else []
  }

  /** What a reader sees of a transaction before and after output n of it is spent: nothing but that output
      has gone, and the coins are gone exactly when it was the last one left. */
  ghost predicate OneSpent(before: Option<Coins>, after: Option<Coins>, n: nat) {
    if before == None || !before.value.IsAvailable(n) then after == before
    else
      var c := before.value;
      && (after == None <==> forall m: nat | m != n :: !c.IsAvailable(m))
      && (after.Some? ==>
            var d := after.value;
            && d.height == c.height && d.version == c.version && d.coinBase == c.coinBase && d.coinStake == c.coinStake
            && d.IsClean()
            && (forall m: nat :: d.IsAvailable(m) <==> m != n && c.IsAvailable(m))
            && (forall m: nat | d.IsAvailable(m) :: m < |c.vout| && d.vout[m] == c.vout[m]))
  }

  lemma {:induction false} SpendSeen(c: Coins, n: nat)
    requires c.IsClean() && !c.IsPruned()
    ensures OneSpent(Some(c), Seen(Spend(c, n).1), n)
  {
    var d := Spend(c, n).1;
    if c.IsAvailable(n) {
      CleanPruned(d);
      if !d.IsPruned() {
        var o :| o in d.vout && !o.IsNull();
        var m :| 0 <= m < |d.vout| && d.vout[m] == o;
        assert d.IsAvailable(m);
      }
    }
  }

  /** On the plain maps of all levels: only the last one changes, only for the transaction spent from. */
  lemma {:induction false} SpendStep(t: Txid, n: nat, x: Txid, ls: seq<Option<Coins>>)
    requires |ls| >= 2
    requires ls[|ls| - 1].Some? ==> ls[|ls| - 1].value.IsClean() && !ls[|ls| - 1].value.IsPruned()
    ensures var r, last := Step(OpSpend(t, n), x, ls), |ls| - 1;
      && |r| == |ls| && r[..last] == ls[..last]
      && (x != t ==> r == ls)
      && (x == t ==> OneSpent(ls[last], r[last], n))
  {
    hide OneSpent;
    var last := |ls| - 1;
    if x == t {
      if ls[last].Some? { SpendSeen(ls[last].value, n); } else { NothingSpent(n); }
    }
  }

  lemma NothingSpent(n: nat)
    ensures OneSpent(None, None, n)
  {
  }

  /** No level holds pruned or unclean coins. */
  ghost predicate AllClean(ls: seq<Option<Coins>>) {
    forall k | 0 <= k < |ls| :: ls[k].Some? ==> ls[k].value.IsClean() && !ls[k].value.IsPruned()
  }

  lemma {:induction false} StepsClean(ops: seq<Op>, t: Txid)
    ensures AllClean(Steps(ops, t, [None, None]))
  {
    if ops != [] {
      StepsClean(ops[..|ops| - 1], t);
    }
  }

  /** So whatever was done before, a spend takes one output from what the topmost level answers. */
  lemma {:induction false} SpendDriven(ops: seq<Op>, t: Txid, n: nat)
    ensures var was, now := Steps(ops, t, [None, None]), Steps(ops + [OpSpend(t, n)], t, [None, None]);
      |now| == |was| && now[..|was| - 1] == was[..|was| - 1] && OneSpent(was[|was| - 1], now[|was| - 1], n)
  {
    hide OneSpent, Step;
    assert (ops + [OpSpend(t, n)])[..|ops|] == ops;
    StepsClean(ops, t);
    SpendStep(t, n, t, Steps(ops, t, [None, None]));
  }

  /** What a level sees is clean and not pruned. */
  lemma SeenClean(top: CoinsViewCache, t: Txid)
    requires top.Valid()
    ensures top.Lookup(t).Some? ==> top.Lookup(t).value.IsClean() && !top.Lookup(t).value.IsPruned()
    decreases top.depth
  {
    hide CoinsViewCache.Levels, CoinsViewCache.Below;
    top.LookupIs(t);
    top.ChainHas();
    if t in top.cacheCoins {
      top.Trusted(t);
    } else if top.base != null {
      SeenClean(top.base, t);
    }
  }

  /** Spending through a modifier, as a step of every level. */
  method SpendModified(top: CoinsViewCache, t: Txid, n: nat)
    requires top.Valid() && !top.hasModifier
    modifies top.chain`cacheCoins, top`hasModifier
    ensures top.Valid() && !top.hasModifier
    ensures forall x :: top.Levels(x) == Step(OpSpend(t, n), x, old(top.Levels(x)))
  {
    hide CoinsViewCache.Valid, CoinsViewCache.Levels, CoinsViewCache.Below, Spend, CleanedUp;
    top.LookupIs(t);
    var coins := top.ModifyCoins(t);
    top.LookupIs(t);
    var (ok, spent) := Spend(coins, n);
    top.Release(t, spent);
    SpentSeen(coins, n);
  }

  /** Spending through a modifier: the levels below see no difference, this one sees one output less. */
  method SpendCoins(top: CoinsViewCache, t: Txid, n: nat)
    requires top.Valid() && !top.hasModifier
    modifies top.chain`cacheCoins, top`hasModifier
    ensures top.Valid() && !top.hasModifier
    ensures forall x :: top.Levels(x) == Step(OpSpend(t, n), x, old(top.Levels(x)))
    ensures forall x | x != t :: top.Levels(x) == old(top.Levels(x))
    ensures var was, now := old(top.Levels(t)), top.Levels(t);
      |now| == |was| && now[..|was| - 1] == was[..|was| - 1] && OneSpent(was[|was| - 1], now[|was| - 1], n)
  {
    hide CoinsViewCache.Valid, CoinsViewCache.Levels, CoinsViewCache.Below, OneSpent, Step;
    SeenClean(top, t);
    SpendModified(top, t, n);
    forall x | x != t ensures Step(OpSpend(t, n), x, old(top.Levels(x))) == old(top.Levels(x)) {
      StepElsewhere(t, n, x, old(top.Levels(x)));
    }
    SpendStep(t, n, t, old(top.Levels(t)));
  }

  lemma StepElsewhere(t: Txid, n: nat, x: Txid, ls: seq<Option<Coins>>)
    requires |ls| >= 2 && x != t
    ensures Step(OpSpend(t, n), x, ls) == ls
  {
  }

  lemma SpentSeen(c: Coins, n: nat)
    ensures c.IsPruned() ==> Seen(CleanedUp(Spend(c, n).1)) == None
    ensures c.IsClean() ==> CleanedUp(Spend(c, n).1) == Spend(c, n).1
  {
    assert n < |c.vout| ==> c.vout[n] in c.vout;
  }

  /** Replacing the coins through a modifier. */
  method SetCoins(top: CoinsViewCache, t: Txid, c: Coins)
    requires top.Valid() && !top.hasModifier
    modifies top.chain`cacheCoins, top`hasModifier
    ensures top.Valid() && !top.hasModifier
    ensures forall x :: top.Levels(x) == Step(OpSet(t, c), x, old(top.Levels(x)))
  {
    hide CoinsViewCache.Valid, CoinsViewCache.Levels, CoinsViewCache.Below;
    top.LookupIs(t);
    var coins := top.ModifyCoins(t);
    top.LookupIs(t);
    top.Release(t, c);
  }

  method PushCache(below: CoinsViewCache) returns (top: CoinsViewCache)
    requires below.Valid()
    ensures fresh(top) && top.Valid() && !top.hasModifier && top.chain == {top} + below.chain && top.db == below.db
    ensures forall t :: top.Levels(t) == Step(OpPush, t, below.Levels(t))
  {
    forall t ensures below.Lookup(t) == below.Levels(t)[|below.Levels(t)| - 1] {}
    top := new CoinsViewCache.OnCache(below);
  }

  /** Discards the topmost cache, unless it is the only one. */
  method PopCache(top: CoinsViewCache) returns (rest: CoinsViewCache)
    requires top.Valid()
    ensures rest.Valid() && rest in top.chain && rest.chain <= top.chain && rest.db == top.db
    ensures forall t :: rest.Levels(t) == Step(OpPop, t, top.Levels(t))
  {
    top.ChainHas();
    rest := if top.base == null then top else top.base;
    rest.ChainHas();
    forall t ensures rest.Levels(t) == Step(OpPop, t, top.Levels(t)) {
      top.LookupIs(t);
      top.BelowIs(t);
    }
  }

  /** Performs one operation. */
  method Perform(op: Op, top: CoinsViewCache) returns (next: CoinsViewCache, outs: seq<Option<Coins>>)
    requires top.Valid() && forall c <- top.chain :: !c.hasModifier
    modifies top.chain, top.db
    ensures next.Valid() && (forall c <- next.chain :: !c.hasModifier)
    ensures next.db == top.db && fresh(next.chain - top.chain)
    ensures forall t :: next.Levels(t) == Step(op, t, old(top.Levels(t)))
    ensures outs == if op.OpRead? then [old(top.Levels(op.t))[|old(top.Levels(op.t))| - 1]] else []
  {
    hide CoinsViewCache.Valid, CoinsViewCache.Levels, CoinsViewCache.Below;
    top.ChainHas();
    next, outs := top, [];
    if op.OpRead? {
      var found, coins := top.GetCoins(op.t);
      outs := [if found then Seen(coins) else None];
    } else if op.OpSet? {
      SetCoins(top, op.t, op.coins);
    } else if op.OpSpend? {
      SpendCoins(top, op.t, op.n);
    } else if op.OpPush? {
      next := PushCache(top);
    } else if op.OpPop? {
      next := PopCache(top);
    } else {
      top.Flush();
    }
  }

  /** A database and a stack of caches over it, driven by any operations: every level is the plain map
      it should be, and every read answers from the topmost one. */
  method Drive(ops: seq<Op>) returns (top: CoinsViewCache, outs: seq<Option<Coins>>)
    ensures top.Valid() && forall t :: top.Levels(t) == Steps(ops, t, [None, None])
    ensures outs == Answers(ops)
  {
    hide CoinsViewCache.Valid, CoinsViewCache.Levels, CoinsViewCache.Below, Step;
    var db := new CoinsViewDB();
    top := new CoinsViewCache.OnDb(db);
    outs := [];
    for k := 0 to |ops|
      invariant fresh(db) && fresh(top.chain) && top.db == db
      invariant top.Valid() && forall c <- top.chain :: !c.hasModifier
      invariant forall t :: top.Levels(t) == Steps(ops[..k], t, [None, None])
      invariant outs == Answers(ops[..k])
    {
      assert ops[..k + 1][..k] == ops[..k];
      var outs1;
      top, outs1 := Perform(ops[k], top);
      outs := outs + outs1;
    }
    assert ops[..|ops|] == ops;
  }
}

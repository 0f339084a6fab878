/** Masternode budgets: which proposals are funded, and which payments a block must make. */
module Budget {
  import Bits
  import opened Coins
  import Sorting

  datatype Payment = Payment(proposalHash: nat, payee: seq<nat>, amount: int)

  const BUDGET_VOTE_UPDATE_MIN := 60 * 60
  const COIN := 100000000

  /* Proposals. */

  class BudgetProposal {
    const hash: nat
    const payee: seq<nat>
    const nAmount: int
    const nBlockStart: int
    const nBlockEnd: int
    const nFeeTXHash: nat
    const fValid: bool
    const fEstablished: bool
    const yeas: nat
    const nays: nat
    var nAlloted: int

    constructor (hash: nat, payee: seq<nat>, amount: int, start: int, end: int, fee: nat, valid: bool, established: bool, yeas: nat, nays: nat)
      ensures this.hash == hash && this.payee == payee && nAmount == amount && nBlockStart == start && nBlockEnd == end
      ensures nFeeTXHash == fee && fValid == valid && fEstablished == established && this.yeas == yeas && this.nays == nays
      ensures nAlloted == 0
    {
      this.hash, this.payee, nAmount, nBlockStart, nBlockEnd := hash, payee, amount, start, end;
      nFeeTXHash, fValid, fEstablished, this.yeas, this.nays := fee, valid, established, yeas, nays;
      nAlloted := 0;
    }

    function NetVotes(): int { yeas - nays }
  }

  /** The period that starts with the next budget block. */
  function NextStart(height: nat, cycle: nat): (start: nat)
    requires cycle > 0
    ensures start % cycle == 0 && height < start <= height + cycle
  {
    NextMultiple(height, cycle);
    height - height % cycle + cycle
  }

  lemma NextMultiple(height: nat, cycle: nat)
    requires cycle > 0
    ensures (height - height % cycle + cycle) % cycle == 0
  {
    var q := height / cycle;
    assert height == q * cycle + height % cycle;
    assert height - height % cycle + cycle == (q + 1) * cycle;
    Bits.DivMod((q + 1) * cycle, cycle, q + 1, 0);
  }

  /** Proposals with the most votes first; of those with equal votes, the one with the larger fee hash. */
  const BY_VOTES := (p: BudgetProposal) => (0 - p.NetVotes(), 0 - p.nFeeTXHash)

  predicate Eligible(p: BudgetProposal, start: nat, cycle: nat, enabled: nat) {
    p.fValid && p.nBlockStart <= start && p.nBlockEnd >= start + cycle - 1 && p.NetVotes() > enabled / 10 && p.fEstablished
  }

  function Total(ps: seq<BudgetProposal>): int {
    if ps == [] then 0 else Total(ps[..|ps| - 1]) + ps[|ps| - 1].nAmount
  }

  /** The proposals funded when all are considered in the given order. */
  function Funded(ps: seq<BudgetProposal>, start: nat, cycle: nat, enabled: nat, budget: int): (r: seq<BudgetProposal>)
  {
    if ps == [] then []
    else
      var r, p := Funded(ps[..|ps| - 1], start, cycle, enabled, budget), ps[|ps| - 1];
      if Eligible(p, start, cycle, enabled) && p.nAmount + Total(r) <= budget then r + [p] else r
  }

  ghost predicate NoneTwice(ps: seq<BudgetProposal>) {
    forall i, j | 0 <= i < j < |ps| :: ps[i] != ps[j]
  }

  /** These proposals are the ones to fund in the period from this start. */
  ghost predicate MostVotesFirst(ps: seq<BudgetProposal>, ret: seq<BudgetProposal>, start: nat, cycle: nat,
                                 enabled: nat, budget: int)
  {
    // The most votes come first, and of equally many the larger fee hash.
    && (forall i, j | 0 <= i < j < |ret| :: var x, y := ret[i], ret[j];
      && x.yeas - x.nays >= y.yeas - y.nays
      && (x.yeas - x.nays == y.yeas - y.nays ==> x.nFeeTXHash >= y.nFeeTXHash))
    // What is funded is eligible for the whole period and fits on top of those before it.
    && (forall k | 0 <= k < |ret| :: var p := ret[k];
      && p in ps && p.fValid && p.fEstablished && p.nBlockStart <= start && start + cycle - 1 <= p.nBlockEnd
      && p.yeas - p.nays > enabled / 10 && Total(ret[..k]) + p.nAmount <= budget)
    // What is eligible and not funded would have gone over the total on top of those before it.
    && forall p <- ps | p !in ret && p.fValid && p.fEstablished && p.yeas - p.nays > enabled / 10
        && p.nBlockStart <= start && start + cycle - 1 <= p.nBlockEnd ::
      exists k | 0 <= k <= |ret| ::
        && Total(ret[..k]) + p.nAmount > budget
        && (forall x <- ret[..k] ::
          && x.yeas - x.nays >= p.yeas - p.nays
          && (x.yeas - x.nays == p.yeas - p.nays ==> x.nFeeTXHash >= p.nFeeTXHash))
        && (forall x <- ret[k..] ::
          && p.yeas - p.nays >= x.yeas - x.nays
          && (p.yeas - p.nays == x.yeas - x.nays ==> p.nFeeTXHash >= x.nFeeTXHash))
  }

  /** Decides which proposals to fund and sets what they are allotted. */
  method GetBudget(ps: seq<BudgetProposal>, height: nat, cycle: nat, enabled: nat, budget: int)
    returns (ret: seq<BudgetProposal>)
    requires cycle > 0 && NoneTwice(ps)
    modifies set p | p in ps
    ensures ret == Funded(Sorting.Sort(ps, BY_VOTES), NextStart(height, cycle), cycle, enabled, budget)
    ensures forall p <- ps | Eligible(p, NextStart(height, cycle), cycle, enabled) ::
      p.nAlloted == if p in ret then p.nAmount else 0
    ensures forall p <- ps | !Eligible(p, NextStart(height, cycle), cycle, enabled) :: p.nAlloted == old(p.nAlloted)
    ensures MostVotesFirst(ps, ret, NextStart(height, cycle), cycle, enabled, budget)
  {
    hide Funded, Eligible, NoneTwice, Total, Sorting.InOrder, MostVotesFirst;
    var vSort := Sorting.Sort(ps, BY_VOTES);
    SameMembers(ps, vSort);
    NoneTwiceSorted(ps, vSort);
    ret := Allot(vSort, NextStart(height, cycle), cycle, enabled, budget);
    ByVotes(ps, vSort, NextStart(height, cycle), cycle, enabled, budget);
  }

  /** The order by votes, with equals on both sides. */
  predicate Outranks(x: BudgetProposal, y: BudgetProposal) {
    && x.yeas - x.nays >= y.yeas - y.nays
    && (x.yeas - x.nays == y.yeas - y.nays ==> x.nFeeTXHash >= y.nFeeTXHash)
  }

  /** Each proposal funded outranks those after it, is eligible, and fits on top of those before it. */
  lemma FundedRanked(ps: seq<BudgetProposal>, start: nat, cycle: nat, enabled: nat, budget: int)
    requires Sorting.InOrder(ps, BY_VOTES)
    ensures var r := Funded(ps, start, cycle, enabled, budget);
      && (forall i, j | 0 <= i < j < |r| :: Outranks(r[i], r[j]))
      && forall k | 0 <= k < |r| ::
        r[k] in ps && Eligible(r[k], start, cycle, enabled) && Total(r[..k]) + r[k].nAmount <= budget
  {
    hide Eligible, Funded, Total;
    FundedFits(ps, start, cycle, enabled, budget);
    EachFits(ps, start, cycle, enabled, budget);
    var r := Funded(ps, start, cycle, enabled, budget);
    assert forall k | 0 <= k < |r| :: r[k] in r;
  }

  lemma {:induction false} EachFits(ps: seq<BudgetProposal>, start: nat, cycle: nat, enabled: nat, budget: int)
    ensures var r := Funded(ps, start, cycle, enabled, budget);
      forall k | 0 <= k < |r| :: Total(r[..k]) + r[k].nAmount <= budget
  {
    hide Eligible, Funded, Total;
    FundedNone(start, cycle, enabled, budget);
    if ps != [] {
      var front := ps[..|ps| - 1];
      EachFits(front, start, cycle, enabled, budget);
      assert ps[..|ps| - 1 + 1] == ps;
      FundedNext(ps, |ps| - 1, start, cycle, enabled, budget);
      var r0, r := Funded(front, start, cycle, enabled, budget), Funded(ps, start, cycle, enabled, budget);
      assert r0 <= r;
      forall k | 0 <= k < |r| ensures Total(r[..k]) + r[k].nAmount <= budget {
        assert r[..k] == r0[..k];
        if k == |r0| { assert r0[..k] == r0; }
      }
    }
  }

  /** An eligible proposal that is not funded has its place among those that are, and no room in it. */
  lemma NoRoom(ps: seq<BudgetProposal>, p: BudgetProposal, start: nat, cycle: nat, enabled: nat, budget: int)
    returns (k: nat)
    requires Sorting.InOrder(ps, BY_VOTES) && NoneTwice(ps) && p in ps && Eligible(p, start, cycle, enabled)
    requires p !in Funded(ps, start, cycle, enabled, budget)
    ensures var r := Funded(ps, start, cycle, enabled, budget);
      && k <= |r| && Total(r[..k]) + p.nAmount > budget
      && (forall x <- r[..k] :: Outranks(x, p)) && forall x <- r[k..] :: Outranks(p, x)
  {
    hide Eligible, Funded, Total, NoneTwice;
    var i :| 0 <= i < |ps| && ps[i] == p;
    var before, r := Funded(ps[..i], start, cycle, enabled, budget), Funded(ps, start, cycle, enabled, budget);
    PassedOver(ps, start, cycle, enabled, budget, i);
    FundedFits(ps[..i], start, cycle, enabled, budget);
    FundedAfter(ps, start, cycle, enabled, budget, i);
    k := |before|;
    assert r[..k] == before;
    forall x <- before ensures Outranks(x, p) {
      var j :| 0 <= j < |ps[..i]| && ps[..i][j] == x;
      assert !Sorting.Below(BY_VOTES(ps[i]), BY_VOTES(ps[j]));
    }
    forall x <- r[k..] ensures Outranks(p, x) {
      var j :| 0 <= j < |ps[i..]| && ps[i..][j] == x;
      assert i + j > i ==> !Sorting.Below(BY_VOTES(ps[i + j]), BY_VOTES(ps[i]));
    }
  }

  /** Going through the proposals in the order by votes funds the right ones. */
  lemma ByVotes(ps: seq<BudgetProposal>, sorted: seq<BudgetProposal>, start: nat, cycle: nat, enabled: nat, budget: int)
    requires Sorting.InOrder(sorted, BY_VOTES) && NoneTwice(sorted)
    requires (forall p <- sorted :: p in ps) && forall p <- ps :: p in sorted
    ensures MostVotesFirst(ps, Funded(sorted, start, cycle, enabled, budget), start, cycle, enabled, budget)
  {
    hide Funded, Total, NoneTwice, Sorting.InOrder;
    var r := Funded(sorted, start, cycle, enabled, budget);
    FundedRanked(sorted, start, cycle, enabled, budget);
    forall p <- ps | p !in r && Eligible(p, start, cycle, enabled)
      ensures exists k | 0 <= k <= |r| ::
        && Total(r[..k]) + p.nAmount > budget
        && (forall x <- r[..k] :: Outranks(x, p)) && forall x <- r[k..] :: Outranks(p, x)
    {
      var k := NoRoom(sorted, p, start, cycle, enabled, budget);
    }
  }

  /** What is funded after the first i proposals were considered is among the others. */
  lemma {:induction false} FundedAfter(ps: seq<BudgetProposal>, start: nat, cycle: nat, enabled: nat, budget: int,
                                       i: nat)
    requires i <= |ps|
    ensures
      var before, all := Funded(ps[..i], start, cycle, enabled, budget), Funded(ps, start, cycle, enabled, budget);
      before <= all && forall x <- all[|before|..] :: x in ps[i..]
  {
    hide Funded, Eligible, Total;
    if i == |ps| {
      assert ps[..i] == ps;
    } else {
      var front := ps[..|ps| - 1];
      assert front[..i] == ps[..i] && ps[i..] == front[i..] + [ps[|ps| - 1]];
      FundedAfter(front, start, cycle, enabled, budget, i);
      assert ps[..|ps| - 1 + 1] == ps;
      FundedNext(ps, |ps| - 1, start, cycle, enabled, budget);
      var before, r0, all := Funded(ps[..i], start, cycle, enabled, budget),
        Funded(front, start, cycle, enabled, budget), Funded(ps, start, cycle, enabled, budget);
      assert all == r0 || all[|before|..] == r0[|before|..] + [ps[|ps| - 1]];
    }
  }

  /** Goes through the proposals in order. */
  method Allot(vSort: seq<BudgetProposal>, nBlockStart: nat, cycle: nat, enabled: nat, budget: int)
    returns (ret: seq<BudgetProposal>)
    requires NoneTwice(vSort)
    modifies set p | p in vSort
    ensures ret == Funded(vSort, nBlockStart, cycle, enabled, budget)
    ensures forall p <- vSort | Eligible(p, nBlockStart, cycle, enabled) :: p.nAlloted == if p in ret then p.nAmount else 0
    ensures forall p <- vSort | !Eligible(p, nBlockStart, cycle, enabled) :: p.nAlloted == old(p.nAlloted)
  {
    hide Funded, Total, Eligible, NoneTwice;
    var nBlockEnd := nBlockStart + cycle - 1;
    var nBudgetAllocated := 0;
    ret := [];
    FundedNone(nBlockStart, cycle, enabled, budget);
    for i := 0 to |vSort|
      invariant ret == Funded(vSort[..i], nBlockStart, cycle, enabled, budget)
      invariant nBudgetAllocated == Total(ret)
      invariant forall p <- ret :: p in vSort[..i]
      invariant forall k | 0 <= k < i && Eligible(vSort[k], nBlockStart, cycle, enabled) ::
        vSort[k].nAlloted == if vSort[k] in ret then vSort[k].nAmount else 0
      invariant forall p <- vSort | !Eligible(p, nBlockStart, cycle, enabled) :: p.nAlloted == old(p.nAlloted)
    {
      var p := vSort[i];
      assert p in vSort;
      FundedNext(vSort, i, nBlockStart, cycle, enabled, budget);
      EligibleIs(p, nBlockStart, cycle, enabled);
      NotBefore(vSort, i);
      if p.fValid && p.nBlockStart <= nBlockStart && p.nBlockEnd >= nBlockEnd && p.yeas - p.nays > enabled / 10 && p.fEstablished {
        if p.nAmount + nBudgetAllocated <= budget {
          p.nAlloted := p.nAmount;
          nBudgetAllocated := nBudgetAllocated + p.nAmount;
          TotalNext(ret, p);
          ret := ret + [p];
        } else {
          p.nAlloted := 0;
        }
      }
    }
    assert vSort[..|vSort|] == vSort;
  }

  lemma NotBefore(ps: seq<BudgetProposal>, i: nat)
    requires NoneTwice(ps) && i < |ps|
    ensures ps[i] !in ps[..i] && forall k | 0 <= k < i :: ps[k] != ps[i]
  {
  }

  lemma FundedNone(start: nat, cycle: nat, enabled: nat, budget: int)
    ensures Funded([], start, cycle, enabled, budget) == [] && Total([]) == 0
  {
  }

  lemma FundedNext(ps: seq<BudgetProposal>, i: nat, start: nat, cycle: nat, enabled: nat, budget: int)
    requires i < |ps|
    ensures var r := Funded(ps[..i], start, cycle, enabled, budget);
      Funded(ps[..i + 1], start, cycle, enabled, budget)
        == if Eligible(ps[i], start, cycle, enabled) && ps[i].nAmount + Total(r) <= budget then r + [ps[i]] else r
  {
    assert ps[..i + 1][..i] == ps[..i];
  }

  lemma EligibleIs(p: BudgetProposal, start: nat, cycle: nat, enabled: nat)
    ensures Eligible(p, start, cycle, enabled) <==>
      p.fValid && p.nBlockStart <= start && p.nBlockEnd >= start + cycle - 1 && p.yeas - p.nays > enabled / 10 && p.fEstablished
  {
  }

  lemma TotalNext(r: seq<BudgetProposal>, p: BudgetProposal)
    ensures Total(r + [p]) == Total(r) + p.nAmount
  {
    assert (r + [p])[..|r|] == r;
  }

  lemma SameMembers(ps: seq<BudgetProposal>, r: seq<BudgetProposal>)
    requires multiset(r) == multiset(ps)
    ensures (forall p <- r :: p in ps) && forall p <- ps :: p in r
  {
    forall p <- r ensures p in ps { assert p in multiset(r); }
    forall p <- ps ensures p in r { assert p in multiset(ps); }
  }

  lemma NoneTwiceSorted(ps: seq<BudgetProposal>, r: seq<BudgetProposal>)
    requires NoneTwice(ps) && multiset(r) == multiset(ps)
    ensures NoneTwice(r)
  {
    forall i, j | 0 <= i < j < |r| ensures r[i] != r[j] {
      if r[i] == r[j] {
        Sorting.Twice(r, i, j);
        AtMostOnce(ps, r[i]);
      }
    }
  }

  lemma {:induction false} AtMostOnce(ps: seq<BudgetProposal>, p: BudgetProposal)
    requires NoneTwice(ps)
    ensures multiset(ps)[p] <= 1
  {
    if ps != [] {
      var front, last := ps[..|ps| - 1], ps[|ps| - 1];
      AtMostOnce(front, p);
      assert ps == front + [last];
      assert forall i | 0 <= i < |front| :: front[i] == ps[i] != last;
      assert last == p ==> p !in front;
    }
  }

  /** What is funded fits the budget, is eligible, and stays in order. */
  lemma {:induction false} FundedFits(ps: seq<BudgetProposal>, start: nat, cycle: nat, enabled: nat, budget: int)
    ensures var r := Funded(ps, start, cycle, enabled, budget);
      && (budget >= 0 ==> Total(r) <= budget)
      && (forall p <- r :: p in ps && Eligible(p, start, cycle, enabled))
      && (Sorting.InOrder(ps, BY_VOTES) ==> Sorting.InOrder(r, BY_VOTES))
  {
    hide Eligible, Funded, Total;
    FundedNone(start, cycle, enabled, budget);
    if ps != [] {
      var front, p := ps[..|ps| - 1], ps[|ps| - 1];
      FundedFits(front, start, cycle, enabled, budget);
      var r0 := Funded(front, start, cycle, enabled, budget);
      assert ps[..|ps| - 1 + 1] == ps;
      FundedNext(ps, |ps| - 1, start, cycle, enabled, budget);
      TotalNext(r0, p);
      if Sorting.InOrder(ps, BY_VOTES) { LastInOrder(ps, r0); }
    }
  }

  /** Members of an ordered sequence, in order, are still so with its last one after them. */
  lemma {:induction false} LastInOrder(ps: seq<BudgetProposal>, r: seq<BudgetProposal>)
    requires ps != [] && Sorting.InOrder(ps, BY_VOTES) && Sorting.InOrder(r, BY_VOTES)
    requires forall p <- r :: p in ps[..|ps| - 1]
    ensures Sorting.InOrder(r + [ps[|ps| - 1]], BY_VOTES)
  {
    var front, p := ps[..|ps| - 1], ps[|ps| - 1];
    forall i | 0 <= i < |r| ensures !Sorting.Below(BY_VOTES(p), BY_VOTES(r[i])) {
      assert r[i] in r && r[i] in front;
      var k :| 0 <= k < |front| && front[k] == r[i];
      assert ps[k] == r[i];
    }
  }

  /** What was funded before proposal i stays funded, and if an eligible proposal is passed over, it would
      have gone over the budget on top of those. */
  lemma {:induction false} PassedOver(ps: seq<BudgetProposal>, start: nat, cycle: nat, enabled: nat, budget: int, i: nat)
    requires i < |ps| && NoneTwice(ps)
    ensures var before, all := Funded(ps[..i], start, cycle, enabled, budget), Funded(ps, start, cycle, enabled, budget);
      && before <= all
      && (Eligible(ps[i], start, cycle, enabled) ==> (ps[i] in all <==> ps[i].nAmount + Total(before) <= budget))
  {
    hide Funded, Eligible, Total;
    var front, p := ps[..|ps| - 1], ps[|ps| - 1];
    var r0 := Funded(front, start, cycle, enabled, budget);
    assert ps[..|ps| - 1 + 1] == ps;
    FundedNext(ps, |ps| - 1, start, cycle, enabled, budget);
    NotBefore(ps, |ps| - 1);
    if i == |ps| - 1 {
      FundedFits(front, start, cycle, enabled, budget);
      assert p !in r0;
    } else {
      assert front[..i] == ps[..i] && front[i] == ps[i] && ps[i] != p;
      PassedOver(front, start, cycle, enabled, budget, i);
    }
  }

  /** The order in which proposals are kept does not matter, as long as their fee hashes differ. */
  lemma OrderIrrelevant(ps: seq<BudgetProposal>, qs: seq<BudgetProposal>)
    requires multiset(ps) == multiset(qs)
    requires forall i, j | 0 <= i < j < |ps| :: ps[i].nFeeTXHash != ps[j].nFeeTXHash
    ensures Sorting.Sort(ps, BY_VOTES) == Sorting.Sort(qs, BY_VOTES)
  {
    forall i, j | 0 <= i < j < |ps| ensures BY_VOTES(ps[i]) != BY_VOTES(ps[j]) {}
    Sorting.Ascends(ps, Sorting.Sort(ps, BY_VOTES), BY_VOTES);
    Sorting.OneOrder(Sorting.Sort(ps, BY_VOTES), Sorting.Sort(qs, BY_VOTES), BY_VOTES);
  }

  /* Finalized budgets. */

  class FinalizedBudget {
    const strBudgetName: string
    const nBlockStart: int
    const vecBudgetPayments: seq<Payment>
    const nFeeTXHash: nat
    /** The time of the last vote of each masternode. */
    var mapVotes: map<nat, int>

    constructor (name: string, start: int, payments: seq<Payment>, fee: nat)
      ensures strBudgetName == name && nBlockStart == start && vecBudgetPayments == payments && nFeeTXHash == fee && mapVotes == map[]
    {
      strBudgetName, nBlockStart, vecBudgetPayments, nFeeTXHash, mapVotes := name, start, payments, fee, map[];
    }

    function GetBlockEnd(): int { nBlockStart + |vecBudgetPayments| - 1 }

    function GetVoteCount(): nat
      reads this
    {
      |mapVotes|
    }

    /** A payment is due from this budget at this height. */
    predicate Covers(height: int) {
      nBlockStart <= height <= GetBlockEnd()
    }

    function Due(height: int): Payment
      requires Covers(height)
    {
      vecBudgetPayments[height - nBlockStart]
    }

    /** A masternode votes again only after an hour, and no vote may be dated more than an hour ahead. */
    method AddOrUpdateVote(voter: nat, nTime: int, now: int) returns (ok: bool)
      modifies this
      ensures ok <==> (voter in old(mapVotes) ==> nTime >= old(mapVotes)[voter] + 3600) && nTime <= now + 3600
      ensures mapVotes == if ok then old(mapVotes)[voter := nTime] else old(mapVotes)
      ensures GetVoteCount() == old(GetVoteCount()) + if ok && voter !in old(mapVotes) then 1 else 0
    {
      if voter in mapVotes {
        if mapVotes[voter] > nTime { return false; }
        if nTime - mapVotes[voter] < BUDGET_VOTE_UPDATE_MIN { return false; }
      }
      if nTime > now + 60 * 60 { return false; }
      if voter in mapVotes { assert mapVotes[voter := nTime].Keys == mapVotes.Keys; }
      mapVotes := mapVotes[voter := nTime];
      ok := true;
    }

    method GetPayeeAndAmount(height: int) returns (ok: bool, payee: seq<nat>, amount: int)
      ensures ok <==> Covers(height)
      ensures ok <==> 0 <= height - nBlockStart < |vecBudgetPayments|
      ensures ok ==> Due(height).payee == payee && Due(height).amount == amount
      ensures ok ==> vecBudgetPayments[height - nBlockStart].payee == payee
      ensures ok ==> vecBudgetPayments[height - nBlockStart].amount == amount
    {
      var i := height - nBlockStart;
      if i < 0 || i > |vecBudgetPayments| - 1 { return false, [], 0; }
      return true, vecBudgetPayments[i].payee, vecBudgetPayments[i].amount;
    }

    /** The transaction makes the payment that is due. */
    predicate Paid(vout: seq<TxOut>, height: int) {
      Covers(height) && TxOut(Due(height).amount, Due(height).payee) in vout
    }

    method IsTransactionValid(vout: seq<TxOut>, height: int) returns (found: bool)
      ensures found <==> Paid(vout, height)
      ensures found <==>
        && 0 <= height - nBlockStart < |vecBudgetPayments|
        && exists out <- vout ::
          && out.script == vecBudgetPayments[height - nBlockStart].payee
          && out.value == vecBudgetPayments[height - nBlockStart].amount
    {
      var n := height - nBlockStart;
      if n < 0 || n > |vecBudgetPayments| - 1 { return false; }
      found := false;
      var pay := vecBudgetPayments[n];
      for i := 0 to |vout|
        invariant found <==> TxOut(pay.amount, pay.payee) in vout[..i]
      {
        if pay.payee == vout[i].script && pay.amount == vout[i].value { found := true; }
      }
      assert vout[..|vout|] == vout;
    }

    function Payout(): int {
      Payouts(vecBudgetPayments)
    }

    method GetTotalPayout() returns (ret: int)
      ensures ret == Payout()
    {
      ret := 0;
      for i := 0 to |vecBudgetPayments|
        invariant ret == Payouts(vecBudgetPayments[..i])
      {
        assert vecBudgetPayments[..i + 1][..i] == vecBudgetPayments[..i];
        ret := ret + vecBudgetPayments[i].amount;
      }
      assert vecBudgetPayments[..|vecBudgetPayments|] == vecBudgetPayments;
    }

    /** The validity rules; the budget limit and the check of the collateral come from outside. */
    method IsValid(cycle: nat, budget: int, collateralOk: bool) returns (ok: bool)
      requires cycle > 0
      ensures ok <==>
        && nBlockStart % cycle == 0 && nBlockStart != 0 && |vecBudgetPayments| <= 100 && strBudgetName != ""
        && nFeeTXHash != 0 && Payout() <= budget && collateralOk
    {
      if nBlockStart % cycle != 0 { return false; }
      if GetBlockEnd() - nBlockStart > 100 { return false; }
      if |vecBudgetPayments| > 100 { return false; }
      if strBudgetName == "" { return false; }
      if nBlockStart == 0 { return false; }
      if nFeeTXHash == 0 { return false; }
      var total := GetTotalPayout();
      if total > budget { return false; }
      ok := collateralOk;
    }
  }

  function Payouts(ps: seq<Payment>): int {
    if ps == [] then 0 else Payouts(ps[..|ps| - 1]) + ps[|ps| - 1].amount
  }

  /** The budget put together from what GetBudget funds; none if nothing is funded. */
  method SubmitFinalBudget(ps: seq<BudgetProposal>, height: nat, cycle: nat, enabled: nat, budget: int, fee: nat)
    returns (final: FinalizedBudget?)
    requires cycle > 0 && NoneTwice(ps)
    modifies set p | p in ps
    ensures final == null <==> Funded(Sorting.Sort(ps, BY_VOTES), NextStart(height, cycle), cycle, enabled, budget) == []
    ensures final != null ==>
      var funded := Funded(Sorting.Sort(ps, BY_VOTES), NextStart(height, cycle), cycle, enabled, budget);
      && fresh(final) && final.nBlockStart == NextStart(height, cycle) && final.strBudgetName == "main" && final.nFeeTXHash == fee
      && |final.vecBudgetPayments| == |funded|
      && (forall i | 0 <= i < |funded| :: final.vecBudgetPayments[i] == Payment(funded[i].hash, funded[i].payee, funded[i].nAmount))
      && final.Payout() == Total(funded)
  {
    hide Funded, Eligible;
    var v := GetBudget(ps, height, cycle, enabled, budget);
    FundedFits(Sorting.Sort(ps, BY_VOTES), NextStart(height, cycle), cycle, enabled, budget);
    forall p | p in v ensures p in ps { assert p in multiset(Sorting.Sort(ps, BY_VOTES)); }
    var payments := PaymentsFor(v);
    if payments == [] { return null; }
    final := new FinalizedBudget("main", NextStart(height, cycle), payments, fee);
  }

  method PaymentsFor(v: seq<BudgetProposal>) returns (payments: seq<Payment>)
    requires forall p <- v :: p.nAlloted == p.nAmount
    ensures |payments| == |v| && Payouts(payments) == Total(v)
    ensures forall k | 0 <= k < |v| :: payments[k] == Payment(v[k].hash, v[k].payee, v[k].nAmount)
  {
    payments := [];
    for i := 0 to |v|
      invariant |payments| == i && Payouts(payments) == Total(v[..i])
      invariant forall k | 0 <= k < i :: payments[k] == Payment(v[k].hash, v[k].payee, v[k].nAmount)
    {
      assert v[..i + 1][..i] == v[..i];
      ghost var before := payments;
      payments := payments + [Payment(v[i].hash, v[i].payee, v[i].nAlloted)];
      assert payments[..i] == before;
    }
    assert v[..|v|] == v;
  }

  /** A submitted budget with its fee paid stays within the total, and is valid exactly when at most 100
      proposals are funded. */
  method SubmitAndCheck(ps: seq<BudgetProposal>, height: nat, cycle: nat, enabled: nat, budget: int, fee: nat)
    returns (final: FinalizedBudget?, ok: bool)
    requires cycle > 0 && NoneTwice(ps) && budget >= 0 && fee != 0
    modifies set p | p in ps
    ensures ok <==> 0 < |Funded(Sorting.Sort(ps, BY_VOTES), NextStart(height, cycle), cycle, enabled, budget)| <= 100
    ensures final == null <==> Funded(Sorting.Sort(ps, BY_VOTES), NextStart(height, cycle), cycle, enabled, budget) == []
    ensures final != null ==>
      && final.Payout() <= budget
      && |final.vecBudgetPayments| == |Funded(Sorting.Sort(ps, BY_VOTES), NextStart(height, cycle), cycle, enabled, budget)|
  {
    final := SubmitFinalBudget(ps, height, cycle, enabled, budget, fee);
    ok := false;
    if final != null {
      FundedFits(Sorting.Sort(ps, BY_VOTES), NextStart(height, cycle), cycle, enabled, budget);
      ok := final.IsValid(cycle, budget, true);
    }
  }

  /** Eligible proposals that fit the total together are all funded. */
  lemma {:induction false} AllFunded(ps: seq<BudgetProposal>, start: nat, cycle: nat, enabled: nat, budget: int,
                                     amount: nat)
    requires forall p <- ps :: Eligible(p, start, cycle, enabled) && p.nAmount == amount
    requires |ps| * amount <= budget
    ensures Funded(ps, start, cycle, enabled, budget) == ps && Total(ps) == |ps| * amount
  {
    if ps != [] {
      var front := ps[..|ps| - 1];
      assert |ps| * amount == |front| * amount + amount;
      AllFunded(front, start, cycle, enabled, budget, amount);
      assert ps == front + [ps[|ps| - 1]];
    }
  }

  /** Not every budget that is put together is valid: 101 proposals over 10 coins each, all eligible and
      far below the 648000 coins of a cycle, make one that is refused. */
  method TooManyProposals() returns (final: FinalizedBudget?, ok: bool)
    ensures final != null && |final.vecBudgetPayments| == 101 && final.Payout() <= 648000 * COIN && !ok
  {
    hide Funded, Total, Eligible;
    var ps: seq<BudgetProposal> := [];
    for i := 0 to 101
      invariant |ps| == i && forall j | 0 <= j < i :: fresh(ps[j]) && ps[j].nAmount == 10 * COIN && ps[j].hash == j
      invariant forall p <- ps :: Eligible(p, 43200, 43200, 1000)
    {
      var p := new BudgetProposal(i, [i], 10 * COIN, 0, 86399, i + 1, true, true, 101, 0);
      EligibleIs(p, 43200, 43200, 1000);
      ps := ps + [p];
    }
    ghost var sorted := Sorting.Sort(ps, BY_VOTES);
    SameMembers(ps, sorted);
    assert |sorted| == |multiset(sorted)| == |multiset(ps)| == 101;
    AllFunded(sorted, 43200, 43200, 1000, 648000 * COIN, 10 * COIN);
    final, ok := SubmitAndCheck(ps, 10, 43200, 1000, 648000 * COIN, 1);
  }

  /* Payments in blocks. */

  /** The most votes of any budget that has a payment due. */
  ghost function Highest(bs: seq<FinalizedBudget>, height: int): nat
    reads bs
  {
    if bs == [] then 0
    else
      var h, b := Highest(bs[..|bs| - 1], height), bs[|bs| - 1];
      if b.Covers(height) && b.GetVoteCount() > h then b.GetVoteCount() else h
  }

  lemma {:induction false} HighestIs(bs: seq<FinalizedBudget>, height: int)
    ensures forall b <- bs | b.Covers(height) :: b.GetVoteCount() <= Highest(bs, height)
    ensures Highest(bs, height) > 0 ==> exists b <- bs :: b.Covers(height) && b.GetVoteCount() == Highest(bs, height)
  {
    if bs != [] {
      var front := bs[..|bs| - 1];
      HighestIs(front, height);
      assert forall b <- bs :: b in front || b == bs[|bs| - 1];
      assert forall b <- front :: b in bs;
    }
  }

  method HighestCount(bs: seq<FinalizedBudget>, height: int) returns (n: nat)
    ensures n == Highest(bs, height)
  {
    n := 0;
    for i := 0 to |bs|
      invariant n == Highest(bs[..i], height)
    {
      assert bs[..i + 1][..i] == bs[..i];
      if bs[i].GetVoteCount() > n && height >= bs[i].nBlockStart && height <= bs[i].GetBlockEnd() {
        n := bs[i].GetVoteCount();
      }
    }
    assert bs[..|bs|] == bs;
  }

  /** Adds the payment due to the outputs of the block at this height. A miner's transaction also gets the
      value of the block, and keeps nothing but its first output besides the payment. */
  method FillBlockPayee(bs: seq<FinalizedBudget>, height: int, vout: seq<TxOut>, fProofOfStake: bool, blockValue: int)
    returns (filled: seq<TxOut>)
    requires !fProofOfStake ==> vout != []
    ensures Highest(bs, height) > 0 ==> exists b <- bs ::
      && b.Covers(height) && b.GetVoteCount() == Highest(bs, height)
      && (var pay := TxOut(b.Due(height).amount, b.Due(height).payee);
          filled == if fProofOfStake then vout + [pay] else [vout[0].(value := blockValue), pay])
    ensures Highest(bs, height) == 0 ==> filled == if fProofOfStake then vout else vout[0 := vout[0].(value := blockValue)]
  {
    var nHighestCount, nAmount := 0, 0;
    var payee: seq<nat> := [];
    ghost var best: FinalizedBudget? := null;
    for i := 0 to |bs|
      invariant nHighestCount == Highest(bs[..i], height)
      invariant nHighestCount > 0 ==> best != null && best in bs && best.Covers(height) && best.GetVoteCount() == nHighestCount
      invariant nHighestCount > 0 ==> best.Due(height).payee == payee && best.Due(height).amount == nAmount
    {
      assert bs[..i + 1][..i] == bs[..i];
      if bs[i].GetVoteCount() > nHighestCount && height >= bs[i].nBlockStart && height <= bs[i].GetBlockEnd() {
        var ok, p, a := bs[i].GetPayeeAndAmount(height);
        if ok {
          nHighestCount, payee, nAmount, best := bs[i].GetVoteCount(), p, a, bs[i];
        }
      }
    }
    assert bs[..|bs|] == bs;
    filled := vout;
    if fProofOfStake {
      if nHighestCount > 0 { filled := filled + [TxOut(nAmount, payee)]; }
    } else {
      filled := filled[0 := filled[0].(value := blockValue)];
      if nHighestCount > 0 { filled := [filled[0], TxOut(nAmount, payee)]; }
    }
  }

  /** Some budget with enough votes has to be paid. */
  method IsTransactionValid(bs: seq<FinalizedBudget>, enabled: nat, vout: seq<TxOut>, height: int) returns (ok: bool)
    ensures ok <==>
      && Highest(bs, height) >= enabled / 20
      && exists b <- bs :: b.GetVoteCount() > Highest(bs, height) - enabled / 10 && b.Paid(vout, height)
  {
    var nHighestCount := HighestCount(bs, height);
    var nFivePercent := enabled / 20;
    if nHighestCount < nFivePercent { return false; }
    for i := 0 to |bs|
      invariant forall b <- bs[..i] :: b.GetVoteCount() > nHighestCount - enabled / 10 ==> !b.Paid(vout, height)
    {
      if bs[i].GetVoteCount() > nHighestCount - enabled / 10 {
        if height >= bs[i].nBlockStart && height <= bs[i].GetBlockEnd() {
          var valid := bs[i].IsTransactionValid(vout, height);
          if valid { return true; }
        }
      }
    }
    assert bs[..|bs|] == bs;
    ok := false;
  }

  /** The outputs of a block without any budget payment. */
  function Unfilled(vout: seq<TxOut>, fProofOfStake: bool, blockValue: int): seq<TxOut>
    requires !fProofOfStake ==> vout != []
  {
    if fProofOfStake then vout else vout[0 := vout[0].(value := blockValue)]
  }

  /** The transaction filled in for a block is accepted there exactly when at least ten masternodes are
      enabled, the best budget has one vote for every twenty of them, and there either is a vote at all or
      the transaction happens to make a payment that nobody voted for. */
  method FillAndCheck(bs: seq<FinalizedBudget>, enabled: nat, height: int, vout: seq<TxOut>, fProofOfStake: bool, blockValue: int)
    returns (filled: seq<TxOut>, ok: bool)
    requires !fProofOfStake ==> vout != []
    ensures ok <==>
      && enabled >= 10 && Highest(bs, height) >= enabled / 20
      && (Highest(bs, height) > 0 || exists b <- bs :: b.Paid(Unfilled(vout, fProofOfStake, blockValue), height))
    ensures Highest(bs, height) > 0 ==>
      exists b <- bs :: b.Paid(filled, height) && b.GetVoteCount() == Highest(bs, height)
  {
    filled := FillBlockPayee(bs, height, vout, fProofOfStake, blockValue);
    ok := IsTransactionValid(bs, enabled, filled, height);
    HighestIs(bs, height);
    if Highest(bs, height) > 0 {
      var b :| b in bs && b.Covers(height) && b.GetVoteCount() == Highest(bs, height)
        && TxOut(b.Due(height).amount, b.Due(height).payee) in filled;
      assert b.Paid(filled, height);
    }
  }

  /** Not every transaction that is filled in is accepted: with nine masternodes, all of which voted for
      the one budget there is, the transaction that pays it is refused. */
  method NineMasternodes() returns (b: FinalizedBudget, filled: seq<TxOut>, ok: bool)
    ensures b.GetVoteCount() == 9 && b.Paid(filled, 43200) && !ok
  {
    b := new FinalizedBudget("main", 43200, [Payment(1, [1], 10 * COIN)], 1);
    for v := 0 to 9
      invariant fresh(b) && forall u <- b.mapVotes :: u < v
      invariant b.GetVoteCount() == v
    {
      var taken := b.AddOrUpdateVote(v, 0, 0);
    }
    filled, ok := FillAndCheck([b], 9, 43200, [TxOut(50 * COIN, [2])], false, 50 * COIN);
    assert [b][..0] == [] && Highest([b], 43200) == 9;
  }
}

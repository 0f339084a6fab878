/** The unspent outputs of one transaction. */
module Coins {

  datatype TxOut = TxOut(value: int, script: seq<nat>)
  {
    predicate IsNull() { value == -1 }
  }

  /** A spent output: SetNull leaves no script behind. */
  const NULL_OUT := TxOut(-1, [])

  datatype Coins = Coins(coinBase: bool, coinStake: bool, vout: seq<TxOut>, height: int, version: int)
  {
    predicate IsPruned() { forall o <- vout :: o.IsNull() }

    predicate IsAvailable(n: nat) { n < |vout| && !vout[n].IsNull() }

    /** No spent output at the end. */
    predicate IsClean() { vout == [] || !vout[|vout| - 1].IsNull() }
  }

  const NO_COINS := Coins(false, false, [], 0, 0)

  function Trimmed(vout: seq<TxOut>): (r: seq<TxOut>)
    ensures r <= vout
    ensures r == [] || !r[|r| - 1].IsNull()
    ensures forall k | |r| <= k < |vout| :: vout[k].IsNull()
    ensures r == [] <==> forall o <- vout :: o.IsNull()
  {
    if vout != [] && vout[|vout| - 1].IsNull() then
      var rest := vout[..|vout| - 1];
      assert vout == rest + [vout[|vout| - 1]];
      Trimmed(rest)
    else
      assert vout != [] ==> vout[|vout| - 1] in vout;
      vout
  }

  function CleanedUp(c: Coins): (r: Coins)
    ensures r.IsClean()
    ensures r.vout == [] <==> c.IsPruned()
    ensures c.IsClean() ==> r == c
    ensures forall n: nat :: r.IsAvailable(n) <==> c.IsAvailable(n)
    ensures r.vout <= c.vout && r == c.(vout := r.vout)
  {
    c.(vout := Trimmed(c.vout))
  }

  lemma CleanPruned(c: Coins)
    requires c.IsClean()
    ensures c.IsPruned() <==> c.vout == []
  {
    if c.vout != [] {
      assert c.vout[|c.vout| - 1] in c.vout;
    }
  }

  /** The vector loop of Cleanup. */
  method Cleanup(c: Coins) returns (r: Coins)
    ensures r == CleanedUp(c)
  {
    var vout := c.vout;
    while |vout| > 0 && vout[|vout| - 1].IsNull()
      invariant Trimmed(vout) == Trimmed(c.vout)
    {
      vout := vout[..|vout| - 1];
    }
    r := c.(vout := vout);
  }

  /** Marks one output spent; refuses when there is nothing to spend. */
  function Spend(c: Coins, n: nat): (r: (bool, Coins))
    ensures r.0 <==> c.IsAvailable(n)
    ensures !r.0 ==> r.1 == c
    ensures r.0 ==> r.1.IsClean() && forall m: nat :: r.1.IsAvailable(m) <==> m != n && c.IsAvailable(m)
    ensures r.0 ==> forall m: nat | r.1.IsAvailable(m) :: m < |c.vout| && r.1.vout[m] == c.vout[m]
    ensures r.1 == c.(vout := r.1.vout) && |r.1.vout| <= |c.vout|
  {
    if n >= |c.vout| || c.vout[n].IsNull() then (false, c)
    else (true, CleanedUp(c.(vout := c.vout[n := NULL_OUT])))
  }
}

/** Write-back caches stacked on one another over a database of unspent outputs. Each level looks like
    one plain map from transaction to coins, in which pruned and absent are the same. */
module CoinsCache {
  import opened Coins
  import opened Common

  type Txid = nat

  datatype Entry = Entry(coins: Coins, dirty: bool, fresh_: bool)

  /** What a reader can tell about a transaction: pruned coins are as good as none. */
  function Seen(c: Coins): Option<Coins> {
    if c.IsPruned() then None else Some(c)
  }

  lemma SeenNone(c: Coins)
    ensures c.IsPruned() <==> Seen(c) == None
    ensures !c.IsPruned() ==> Seen(c) == Some(c)
  {
  }

  /** The database below all caches. */
  class CoinsViewDB {
    var store: map<Txid, Coins>

    constructor ()
      ensures Valid() && store == map[]
    {
      store := map[];
    }

    /** Only clean coins with something unspent are stored. */
    ghost predicate Valid()
      reads this
    {
      forall t <- store :: store[t].IsClean() && !store[t].IsPruned()
    }

    ghost function Lookup(t: Txid): Option<Coins>
      reads this
    {
      if t in store then Seen(store[t]) else None
    }

    method GetCoins(t: Txid) returns (found: bool, coins: Coins)
      requires Valid()
      ensures found <==> Lookup(t).Some?
      ensures found ==> coins.IsClean() && Lookup(t) == Seen(coins)
    {
      found := t in store;
      coins := if found then store[t] else NO_COINS;
    }

    /** Pruned coins are erased, others written. */
    method BatchWriteCoins(t: Txid, coins: Coins)
      requires Valid() && coins.IsClean()
      modifies this
      ensures Valid()
      ensures forall x :: Lookup(x) == if x == t then Seen(coins) else old(Lookup(x))
    {
      if coins.IsPruned() {
        store := store - {t};
      } else {
        store := store[t := coins];
      }
    }

    method BatchWrite(mapCoins: map<Txid, Entry>)
      requires Valid() && forall t <- mapCoins :: mapCoins[t].coins.IsClean()
      requires forall t <- mapCoins :: !mapCoins[t].dirty ==> Seen(mapCoins[t].coins) == Lookup(t)
      modifies this
      ensures Valid()
      ensures forall t :: Lookup(t) == if t in mapCoins then Seen(mapCoins[t].coins) else old(Lookup(t))
    {
      hide Seen, Valid, Lookup;
      var rest := mapCoins.Keys;
      while rest != {}
        invariant Valid() && rest <= mapCoins.Keys
        invariant forall t :: Lookup(t) == if t in mapCoins && t !in rest then Seen(mapCoins[t].coins) else old(Lookup(t))
        decreases rest
      {
        var t :| t in rest;
        if mapCoins[t].dirty {
          BatchWriteCoins(t, mapCoins[t].coins);
        }
        rest := rest - {t};
      }
    }
  }

  class CoinsViewCache {
    const db: CoinsViewDB
    const base: CoinsViewCache?
    var cacheCoins: map<Txid, Entry>
    var hasModifier: bool

    /** This cache and all caches below it. */
    ghost const chain: set<CoinsViewCache>
    ghost const depth: nat

    ghost predicate Linked()
      decreases depth
    {
      if base == null then chain == {this} && depth == 0
      else base.depth < depth && base.Linked() && base.db == db && this !in base.chain && chain == {this} + base.chain
    }

    lemma ChainHas()
      requires Linked()
      decreases depth
      ensures this in chain
      ensures base != null ==> base in chain && base.chain < chain
    {
      if base != null { base.ChainHas(); }
    }

    /** What each level sees of a transaction, the database first and this cache last. */
    ghost function Levels(t: Txid): (ls: seq<Option<Coins>>)
      requires Linked()
      reads chain`cacheCoins, db
      ensures |ls| >= 2
      decreases depth, 3
    {
      ChainHas();
      Below(t) + [if t in cacheCoins then Seen(cacheCoins[t].coins) else Under(t)]
    }

    /** What the levels under this cache see. */
    ghost function Below(t: Txid): (ls: seq<Option<Coins>>)
      requires Linked()
      reads chain`cacheCoins, db
      ensures |ls| >= 1
      decreases depth, 0
    {
      ChainHas();
      if base == null then [db.Lookup(t)] else base.Levels(t)
    }

    ghost function Under(t: Txid): Option<Coins>
      requires Linked()
      reads chain`cacheCoins, db
      decreases depth, 2
    {
      Below(t)[|Below(t)| - 1]
    }

    /** This cache as a plain map. */
    ghost function Lookup(t: Txid): Option<Coins>
      requires Linked()
      reads chain`cacheCoins, db
    {
      Levels(t)[|Levels(t)| - 1]
    }

    lemma LookupIs(t: Txid)
      requires Linked()
      ensures Under(t) == if base == null then db.Lookup(t) else base.Lookup(t)
      ensures Lookup(t) == if t in cacheCoins then Seen(cacheCoins[t].coins) else Under(t)
      ensures Levels(t) == Below(t) + [Lookup(t)]
    {
    }

    /** An entry may be trusted: unmodified ones equal the level below, fresh ones hide nothing there,
        and the others are held by the cache below as well. */
    ghost predicate EntryOk(t: Txid, e: Entry)
      requires Linked()
      reads chain`cacheCoins, db
    {
      ChainHas();
      && e.coins.IsClean()
      && (!e.dirty ==> Seen(e.coins) == Under(t))
      && (e.fresh_ ==> Under(t) == None)
      && (!e.fresh_ && base != null ==> t in base.cacheCoins)
    }

    ghost predicate Valid()
      reads chain`cacheCoins, db
      ensures Valid() ==> Linked()
      decreases depth
    {
      Linked() &&
      (ChainHas();
       && (if base == null then db.Valid() else base.Valid())
       && (forall t <- cacheCoins :: EntryOk(t, cacheCoins[t])))
    }

    constructor OnDb(db: CoinsViewDB)
      requires db.Valid()
      ensures Valid() && this.db == db && base == null && chain == {this} && !hasModifier && cacheCoins == map[]
      ensures forall t :: Levels(t) == [db.Lookup(t), db.Lookup(t)]
    {
      this.db, base, depth, chain := db, null, 0, {this};
      cacheCoins, hasModifier := map[], false;
    }

    constructor OnCache(below: CoinsViewCache)
      requires below.Valid()
      ensures Valid() && db == below.db && base == below && chain == {this} + below.chain && !hasModifier
      ensures cacheCoins == map[]
      ensures forall t :: Levels(t) == below.Levels(t) + [below.Lookup(t)]
    {
      db, base, depth, chain := below.db, below, below.depth + 1, {this} + below.chain;
      cacheCoins, hasModifier := map[], false;
      new;
      ChainHas();
      below.ChainHas();
    }

    /** Writes one trustworthy entry; the other levels are as they were. */
    method Put(t: Txid, e: Entry)
      requires Valid() && EntryOk(t, e)
      modifies this`cacheCoins
      ensures Valid() && cacheCoins == old(cacheCoins)[t := e]
      ensures forall x :: Below(x) == old(Below(x))
      ensures forall x | x != t :: Levels(x) == old(Levels(x))
      ensures Levels(t) == old(Below(t)) + [Seen(e.coins)]
    {
      hide Seen;
      ChainHas();
      cacheCoins := cacheCoins[t := e];
      assert forall x :: Below(x) == old(Below(x)) && Under(x) == old(Under(x));
      forall x | x in cacheCoins ensures EntryOk(x, cacheCoins[x]) {
        assert old(EntryOk(x, if x == t then e else cacheCoins[x]));
      }
    }

    /** Asks the level below, whichever kind it is. */
    method GetBelow(t: Txid) returns (found: bool, coins: Coins)
      requires Valid()
      modifies chain`cacheCoins
      ensures Valid() && cacheCoins == old(cacheCoins)
      ensures forall x :: Levels(x) == old(Levels(x))
      ensures forall x :: Below(x) == old(Below(x))
      ensures if found then coins.IsClean() && Seen(coins) == Under(t) else Under(t) == None
      ensures found && base != null ==> t in base.cacheCoins
      decreases depth, 0
    {
      hide Seen;
      ChainHas();
      if base == null {
        found, coins := db.GetCoins(t);
      } else {
        found, coins := base.GetCoins(t);
      }
      assert forall x :: Below(x) == old(Below(x)) && Under(x) == old(Under(x));
      LookupIs(t);
    }

    /** Looks a transaction up here and, failing that, pulls it up from below. No level sees a difference. */
    method FetchCoins(t: Txid) returns (found: bool)
      requires Valid()
      modifies chain`cacheCoins
      ensures Valid()
      ensures forall x :: Levels(x) == old(Levels(x))
      ensures found <==> t in cacheCoins
      ensures !found ==> Lookup(t) == None
      ensures forall x <- old(cacheCoins) :: x in cacheCoins && cacheCoins[x] == old(cacheCoins)[x]
      decreases depth, 1
    {
      hide Seen, Valid;
      ChainHas();
      if t in cacheCoins { return true; }
      var coins;
      found, coins := GetBelow(t);
      LookupIs(t);
      if !found { return; }
      SeenNone(coins);
      Put(t, Entry(coins, false, coins.IsPruned()));
    }

    method GetCoins(t: Txid) returns (found: bool, coins: Coins)
      requires Valid()
      modifies chain`cacheCoins
      ensures Valid()
      ensures forall x :: Levels(x) == old(Levels(x))
      ensures found <==> t in cacheCoins
      ensures if found then coins.IsClean() && Seen(coins) == Lookup(t) else Lookup(t) == None
      ensures forall x <- old(cacheCoins) :: x in cacheCoins && cacheCoins[x] == old(cacheCoins)[x]
      decreases depth, 2
    {
      found := FetchCoins(t);
      coins := if found then cacheCoins[t].coins else NO_COINS;
    }

    method HaveCoins(t: Txid) returns (have: bool)
      requires Valid()
      modifies chain`cacheCoins
      ensures Valid()
      ensures forall x :: Levels(x) == old(Levels(x))
      ensures have <==> Lookup(t).Some?
    {
      var found := FetchCoins(t);
      LookupIs(t);
      if found { CleanPruned(cacheCoins[t].coins); }
      have := found && cacheCoins[t].coins.vout != [];
    }

    /** Removes one entry, uncovering the level below. */
    method Erase(t: Txid)
      requires Valid()
      modifies this`cacheCoins
      ensures Valid() && cacheCoins == old(cacheCoins) - {t}
      ensures forall x :: Below(x) == old(Below(x))
      ensures forall x | x != t :: Levels(x) == old(Levels(x))
      ensures Levels(t) == old(Below(t)) + [old(Under(t))]
    {
      hide Seen;
      ChainHas();
      cacheCoins := cacheCoins - {t};
      assert forall x :: Below(x) == old(Below(x)) && Under(x) == old(Under(x));
      forall x | x in cacheCoins ensures EntryOk(x, cacheCoins[x]) {
        assert old(EntryOk(x, cacheCoins[x]));
      }
    }

    lemma Trusted(t: Txid)
      requires Valid() && t in cacheCoins
      ensures EntryOk(t, cacheCoins[t]) && EntryOk(t, cacheCoins[t].(dirty := true))
    {
    }

    /** Hands out the coins of a transaction for modification; no other may be handed out meanwhile. */
    method ModifyCoins(t: Txid) returns (coins: Coins)
      requires Valid() && !hasModifier
      modifies chain`cacheCoins, this`hasModifier
      ensures Valid() && hasModifier
      ensures forall x :: Levels(x) == old(Levels(x))
      ensures t in cacheCoins && cacheCoins[t].dirty && coins == cacheCoins[t].coins && Seen(coins) == Lookup(t)
      ensures coins.IsClean()
    {
      hide Seen, Valid, Levels, Below;
      ChainHas();
      LookupIs(t);
      if t !in cacheCoins {
        var found;
        found, coins := GetBelow(t);
        if !found { coins := NO_COINS; }
        SeenNone(coins);
        LookupIs(t);
        Put(t, Entry(coins, true, !found || coins.IsPruned()));
      } else {
        Trusted(t);
        coins := cacheCoins[t].coins;
        Put(t, cacheCoins[t].(dirty := true));
      }
      LookupIs(t);
      hasModifier := true;
    }

    /** Takes back the coins handed out by ModifyCoins, as the caller left them. */
    method Release(t: Txid, changed: Coins)
      requires Valid() && hasModifier && t in cacheCoins && cacheCoins[t].dirty
      modifies this`cacheCoins, this`hasModifier
      ensures Valid() && !hasModifier
      ensures forall x :: Below(x) == old(Below(x))
      ensures forall x | x != t :: Levels(x) == old(Levels(x))
      ensures Levels(t) == old(Below(t)) + [Seen(CleanedUp(changed))]
    {
      hide Seen, Valid, Levels, Below;
      hasModifier := false;
      Trusted(t);
      var coins := Cleanup(changed);
      SeenNone(coins);
      if cacheCoins[t].fresh_ && coins.IsPruned() {
        Erase(t);
      } else {
        Put(t, cacheCoins[t].(coins := coins));
      }
    }

    /** What an entry of a cache on top of this one may be relied on for: the same as EntryOk there. */
    ghost predicate ChildOk(t: Txid, e: Entry)
      requires Linked()
      reads chain`cacheCoins, db
    {
      && e.coins.IsClean()
      && (!e.dirty ==> Seen(e.coins) == Lookup(t))
      && (e.fresh_ ==> Lookup(t) == None)
      && (!e.fresh_ ==> (ChainHas(); t in cacheCoins))
    }

    /** One modified entry of the cache on top. */
    method WriteBack(t: Txid, e: Entry)
      requires Valid() && ChildOk(t, e) && e.dirty
      modifies this`cacheCoins
      ensures Valid()
      ensures forall x :: Below(x) == old(Below(x))
      ensures forall x | x != t :: Lookup(x) == old(Lookup(x)) && (x in cacheCoins <==> x in old(cacheCoins))
      ensures Lookup(t) == Seen(e.coins)
    {
      hide Seen, Levels, Below, Valid;
      LookupIs(t);
      SeenNone(e.coins);
      if t in cacheCoins { Trusted(t); }
      if t !in cacheCoins {
        if !e.coins.IsPruned() {
          assert e.fresh_;
          Put(t, Entry(e.coins, true, true));
        }
      } else {
        if cacheCoins[t].fresh_ && e.coins.IsPruned() {
          Erase(t);
        } else {
          Put(t, cacheCoins[t].(coins := e.coins, dirty := true));
        }
      }
    }

    /** Takes over the entries of the cache on top, in any order. */
    method BatchWrite(mapCoins: map<Txid, Entry>)
      requires Valid() && !hasModifier
      requires forall t <- mapCoins :: ChildOk(t, mapCoins[t])
      modifies this`cacheCoins
      ensures Valid()
      ensures forall t :: Below(t) == old(Below(t))
      ensures forall t :: Levels(t) == if t in mapCoins then old(Below(t)) + [Seen(mapCoins[t].coins)] else old(Levels(t))
    {
      hide Seen, Levels, Valid, Below;
      forall t ensures Levels(t) == Below(t) + [Lookup(t)] { LookupIs(t); }
      var rest := mapCoins.Keys;
      while rest != {}
        invariant Valid() && Linked() && rest <= mapCoins.Keys
        invariant forall t :: Below(t) == old(Below(t))
        invariant forall t :: Lookup(t) == if t in mapCoins && t !in rest then Seen(mapCoins[t].coins) else old(Lookup(t))
        invariant forall t <- rest :: ChildOk(t, mapCoins[t])
        decreases rest
      {
        hide Lookup;
        var t :| t in rest;
        if mapCoins[t].dirty {
          WriteBack(t, mapCoins[t]);
        }
        rest := rest - {t};
      }
      forall t ensures Levels(t) == if t in mapCoins then old(Below(t)) + [Seen(mapCoins[t].coins)] else old(Levels(t)) {
        LookupIs(t);
      }
    }

    /** What a flush does to the levels of a transaction: the one below the last becomes the last. */
    static function Flushed(ls: seq<Option<Coins>>): seq<Option<Coins>>
      requires |ls| >= 2
    {
      ls[|ls| - 2 := ls[|ls| - 1]]
    }

    /** Hands every change to the level below. Reads here are as before, and the level below now sees
        what this one saw. */
    method Flush()
      requires Valid() && !hasModifier && (base != null ==> !base.hasModifier)
      modifies chain`cacheCoins, db
      ensures Valid() && cacheCoins == map[]
      ensures forall t :: Levels(t) == Flushed(old(Levels(t)))
    {
      ChainHas();
      if base == null {
        FlushDb();
      } else {
        FlushBase();
      }
    }

    method FlushDb()
      requires Valid() && base == null
      modifies this`cacheCoins, db
      ensures Valid() && cacheCoins == map[]
      ensures forall t :: Levels(t) == Flushed(old(Levels(t)))
    {
      hide Seen;
      forall t ensures Levels(t) == [db.Lookup(t), Lookup(t)] { LookupIs(t); }
      forall t ensures Lookup(t) == if t in cacheCoins then Seen(cacheCoins[t].coins) else db.Lookup(t) { LookupIs(t); }
      forall t | t in cacheCoins && !cacheCoins[t].dirty ensures Seen(cacheCoins[t].coins) == db.Lookup(t) { LookupIs(t); }
      db.BatchWrite(cacheCoins);
      cacheCoins := map[];
      forall t ensures Levels(t) == [db.Lookup(t), db.Lookup(t)] { LookupIs(t); }
    }

    method FlushBase()
      requires Valid() && base != null && !base.hasModifier
      modifies chain`cacheCoins
      ensures Valid() && cacheCoins == map[]
      ensures forall t :: Levels(t) == Flushed(old(Levels(t)))
    {
      hide Seen, Levels, Below, Flushed;
      ChainHas();
      forall t ensures Levels(t) == base.Levels(t) + [Lookup(t)]
        ensures base.Levels(t) == base.Below(t) + [base.Lookup(t)]
        ensures Lookup(t) == if t in cacheCoins then Seen(cacheCoins[t].coins) else base.Lookup(t)
      {
        LookupIs(t);
        base.LookupIs(t);
        BelowIs(t);
      }
      forall t | t in cacheCoins ensures base.ChildOk(t, cacheCoins[t]) { LookupIs(t); }
      base.BatchWrite(cacheCoins);
      cacheCoins := map[];
      forall t ensures Levels(t) == Flushed(old(Levels(t))) {
        LookupIs(t);
        BelowIs(t);
        base.LookupIs(t);
        FlushedIs(old(base.Below(t)), old(base.Lookup(t)), old(Lookup(t)));
      }
    }

    lemma BelowIs(t: Txid)
      requires Linked()
      ensures Below(t) == if base == null then [db.Lookup(t)] else base.Levels(t)
    {
    }

    static lemma FlushedIs(below: seq<Option<Coins>>, x: Option<Coins>, y: Option<Coins>)
      ensures Flushed(below + [x] + [y]) == below + [y] + [y]
    {
    }
  }
}

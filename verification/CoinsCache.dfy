/** CCoinsViewCache as an object that updates its maps in place. The value
    `Model()` of a stack of caches is a view of `CoinsModel`; the second index by
    chain position is kept in `cacheCoinRefs` and is the inverse of the first. */
module CoinsCache {
  import opened CoinsModel
  import opened CoinsIndex
  import opened CoinsBatch
  import opened Wrappers
  import opened CoinsWitness

  class CoinsDb {
    var coins: CoinMap
    var refs: Refs

    constructor ()
      ensures coins == map[] && refs == map[]
    {
      coins, refs := map[], map[];
    }

    /** The outpoint that the index has for a position, if that has a coin. */
    ghost function Resolve(x: Position): Option<HashPoint>
      reads this
    {
      if x in refs && refs[x] in coins then Some(refs[x]) else None
    }

    method GetCoin(o: OutPoint) returns (r: Option<(HashPoint, Coin)>)
      ensures r == LookupTarget(Db(coins), match o case ByHash(p) => Some(p) case ByIndex(x) => Resolve(x))
    {
      r := None;
      if o.ByHash? {
        if o.point in coins {
          r := Some((o.point, coins[o.point]));
        }
      } else if o.position in refs && refs[o.position] in coins {
        r := Some((refs[o.position], coins[refs[o.position]]));
      }
    }

    /** Visits the batch in an arbitrary order. The keys of the index are erased on
        the way; what is written to it is pooled and written at the end. */
    method BatchWrite(batch: Entries, ghost plan: Plan)
      requires IndexOk(coins, OnChain(refs), plan) && AllFit(CoinsOf(batch), plan)
      modifies this
      ensures coins == StoreAll(old(coins), batch)
      ensures RefsWritten(old(refs), batch, refs)
      ensures IndexOk(coins, OnChain(refs), plan)
    {
      var pool := StoreCoins(batch);
      ghost var erased := refs;
      WriteRefs(pool);
      PooledIsWritten(old(refs), batch, erased, pool, refs);
      if plan.Some? {
        StoredIndexPlaced(old(coins), old(refs), batch, refs, plan.value);
      }
    }

    method StoreCoins(batch: Entries) returns (pool: Pool)
      modifies this
      ensures coins == StoreAll(old(coins), batch)
      ensures ErasedBy(old(refs), batch, refs)
      ensures Pools(batch, pool)
    {
      var keys := batch.Keys;
      pool := [];
      assert coins == StoreAll(coins, batch - keys);
      while keys != {}
        invariant keys <= batch.Keys
        invariant coins == StoreAll(old(coins), batch - keys)
        invariant ErasedBy(old(refs), batch - keys, refs)
        invariant Pools(batch - keys, pool)
      {
        var p :| p in keys;
        StoreAllStep(old(coins), batch, keys, p);
        var e := batch[p];
        var x := PositionOf(p, e.coin);
        assert batch - (keys - {p}) == (batch - keys)[p := e];
        ErasedOn(old(refs), batch - keys, refs, p, e);
        PoolsOn(batch - keys, pool, p, e);
        if e.isDirty {
          if e.coin.IsSpent() {
            coins, refs := coins - {p}, refs - {x};
          } else {
            coins, pool := coins[p := e.coin], pool + [(x, p)];
          }
        }
        keys := keys - {p};
      }
      assert batch - keys == batch;
    }

    method WriteRefs(pool: Pool)
      modifies this`refs
      ensures PooledInto(old(refs), pool, refs)
    {
      for i := 0 to |pool|
        invariant PooledInto(old(refs), pool[..i], refs)
      {
        PooledOn(old(refs), pool[..i], refs, pool[i].0, pool[i].1);
        refs := refs[pool[i].0 := pool[i].1];
        assert pool[..i + 1] == pool[..i] + [(pool[i].0, pool[i].1)];
      }
      assert pool[..|pool|] == pool;
    }
  }

  class CoinsViewCache {
    const base: CoinsViewCache?
    const db: CoinsDb
    const sibling: CoinsViewCache?
    ghost const Repr: set<object>

    var cacheCoins: Entries
    var cacheCoinRefs: Refs

    constructor OnDb(db: CoinsDb, side: CoinsViewCache?)
      requires side != null ==> side.Valid() && side.sibling == null && db !in side.Repr
      ensures Valid() && Paired() && sibling == side && fresh(Repr - {db})
      ensures Model() == Cache(map[], Db(db.coins)) && cacheCoinRefs == map[]
    {
      this.base, this.db, this.sibling := null, db, side;
      Repr := {this, db};
      cacheCoins, cacheCoinRefs := map[], map[];
    }

    /** A child cache; its sibling is a child of the sibling of its base. */
    constructor OnCache(parent: CoinsViewCache)
      requires parent.Valid() && parent.Paired()
      ensures Valid() && Paired() && base == parent && fresh(Repr - parent.Repr)
      ensures Model() == Cache(map[], parent.Model()) && cacheCoinRefs == map[]
      ensures sibling == null <==> parent.sibling == null
      ensures sibling != null ==>
        && fresh(sibling) && sibling.base == parent.sibling
        && sibling.Model() == Cache(map[], parent.sibling.Model()) && sibling.cacheCoinRefs == map[]
      decreases parent.sibling != null
    {
      base, db := parent, parent.db;
      Repr := {this} + parent.Repr;
      cacheCoins, cacheCoinRefs := map[], map[];
      if parent.sibling == null {
        sibling := null;
      } else {
        var side := new CoinsViewCache.OnCache(parent.sibling);
        sibling := side;
      }
    }

    ghost predicate Paired() {
      sibling != null ==> sibling.Valid() && sibling.sibling == null && sibling.Repr !! Repr
    }

    ghost predicate Valid()
      decreases Repr
    {
      && this in Repr
      && db in Repr
      && (base != null ==>
            && base in Repr
            && base.Repr <= Repr
            && this !in base.Repr
            && base.db == db
            && base.Valid())
    }

    ghost function Model(): View
      requires Valid()
      reads Repr
      decreases Repr, 1
    {
      Cache(cacheCoins, BaseModel())
    }

    ghost function BaseModel(): View
      requires Valid()
      reads Repr - {this}
      decreases Repr, 0
    {
      if base == null then Db(db.coins) else base.Model()
    }

    ghost predicate OwnIndex(plan: Plan)
      reads this
    {
      IndexOk(CoinsOf(cacheCoins), cacheCoinRefs, plan)
    }

    /** An exact index stays exact when a coin is put just when the coin gets a position
        of its own and does not leave one. */
    ghost predicate ExactAfterPut(entries: Entries, refs: Refs, p: HashPoint, c: Coin)
      reads this
    {
      var coins := CoinsOf(entries);
      Inverse(coins, refs) ==>
        (Inverse(CoinsOf(cacheCoins), cacheCoinRefs) <==> PositionsUnique(coins[p := c]) && KeepsPlace(coins, p, c))
    }

    /** The position index of every level is the inverse of its coins. */
    ghost predicate Indexed(plan: Plan)
      requires Valid()
      reads Repr
      decreases Repr, 1
    {
      OwnIndex(plan) && BaseIndexed(plan)
    }

    ghost predicate BaseIndexed(plan: Plan)
      requires Valid()
      reads Repr - {this}
      decreases Repr, 0
    {
      if base == null then IndexOk(db.coins, OnChain(db.refs), plan) else base.Indexed(plan)
    }

    ghost predicate Sound(plan: Plan)
      reads Repr
    {
      Valid() && Coherent(Model()) && Indexed(plan)
    }

    lemma CoinsOfPut(p: HashPoint, e: Entry)
      ensures CoinsOf(cacheCoins[p := e]) == CoinsOf(cacheCoins)[p := e.coin]
    {
      assert CoinsOf(cacheCoins[p := e]) == CoinsOf(cacheCoins)[p := e.coin];
    }

    // ----- outpoints named by position

    /** The outpoint that the index has for a position, here or else in the base. */
    ghost function Resolve(x: Position): Option<HashPoint>
      requires Valid()
      reads Repr
      decreases Repr, 1
    {
      if x in cacheCoinRefs then Some(cacheCoinRefs[x]) else BaseResolve(x)
    }

    ghost function BaseResolve(x: Position): Option<HashPoint>
      requires Valid()
      reads Repr - {this}
      decreases Repr, 0
    {
      if base == null then db.Resolve(x) else base.Resolve(x)
    }

    /** The index leads to an entry, as the source asserts, and no view above the one
        that has the key holds that entry without it. */
    ghost predicate Settled(x: Position)
      requires Valid()
      reads Repr
      decreases Repr, 1
    {
      if x in cacheCoinRefs then cacheCoinRefs[x] in cacheCoins
      else BaseSettled(x) && (BaseResolve(x).Some? ==> BaseResolve(x).value !in cacheCoins)
    }

    ghost predicate BaseSettled(x: Position)
      requires Valid()
      reads Repr - {this}
      decreases Repr, 0
    {
      base == null || base.Settled(x)
    }

    /** Every output can be asked for by hash. Nobody asks for a mempool coin by
        position, as the source asserts. */
    ghost predicate Askable(o: OutPoint)
      requires Valid()
      reads Repr
    {
      o.ByIndex? ==> !AtMempool(o.position) && Settled(o.position)
    }

    ghost predicate BaseAskable(o: OutPoint)
      requires Valid()
      reads Repr - {this}
    {
      o.ByIndex? ==> !AtMempool(o.position) && BaseSettled(o.position)
    }

    ghost function Named(o: OutPoint): Option<HashPoint>
      requires Valid()
      reads Repr
    {
      match o case ByHash(p) => Some(p) case ByIndex(x) => Resolve(x)
    }

    ghost function BaseNamed(o: OutPoint): Option<HashPoint>
      requires Valid()
      reads Repr - {this}
    {
      match o case ByHash(p) => Some(p) case ByIndex(x) => BaseResolve(x)
    }

    ghost function LocalNamed(o: OutPoint): Option<HashPoint>
      reads this
    {
      match o
      case ByHash(p) => Some(p)
      case ByIndex(x) => if x in cacheCoinRefs then Some(cacheCoinRefs[x]) else None
    }

    /** While outpoints keep their positions every position is settled, and the index
        finds the outpoint placed there if any view has it. */
    lemma PlacedSettled(plan: Plan, x: Position)
      requires Valid() && Indexed(plan) && plan.Some? && !AtMempool(x)
      ensures Settled(x)
      ensures Resolve(x).Some? ==> plan.value(Resolve(x).value) == x && Lookup(Model(), Resolve(x).value).Some?
      ensures forall p :: plan.value(p) == x && Lookup(Model(), p).Some? ==> Resolve(x) == Some(p)
      decreases Repr
    {
      RefsFollowPlacement(CoinsOf(cacheCoins), cacheCoinRefs, plan.value, x);
      if base == null {
        RefsFollowPlacement(db.coins, OnChain(db.refs), plan.value, x);
        assert x in db.refs <==> x in OnChain(db.refs);
      } else {
        base.PlacedSettled(plan, x);
      }
    }

    /** Asking for a position is then asking for the outpoint placed there. */
    lemma ByPositionIsByHash(plan: Plan, p: HashPoint, keepFresh: bool)
      requires Sound(plan) && plan.Some? && !AtMempool(plan.value(p))
      ensures var o := ByIndex(plan.value(p));
        && Askable(o)
        && LookupTarget(Model(), Named(o)) == LookupTarget(Model(), Some(p))
        && FetchTarget(Model(), Named(o)) == Fetch(Model(), p)
        && SpendTarget(Model(), Named(o), keepFresh) == Spend(Model(), p, keepFresh)
        && UncacheTarget(Model(), LocalNamed(o)) == CoinsModel.Uncache(Model(), p)
    {
      var x := plan.value(p);
      PlacedSettled(plan, x);
      RefsFollowPlacement(CoinsOf(cacheCoins), cacheCoinRefs, plan.value, x);
      if Lookup(Model(), p).None? {
        FetchNothing(Model(), p);
      }
    }

    // ----- the operations

    /** The entry of `o` in this cache alone, and its key in the position index. */
    method FindLocal(o: OutPoint) returns (found: Option<HashPoint>, ref: Option<Position>)
      requires LocalNamed(o).Some? && o.ByIndex? ==> LocalNamed(o).value in cacheCoins
      ensures found == if LocalNamed(o).Some? && LocalNamed(o).value in cacheCoins then LocalNamed(o) else None
      ensures found.Some? ==> KeyOf(o, found.value, ref)
    {
      found, ref := None, None;
      if o.ByHash? {
        if o.point in cacheCoins {
          found := Some(o.point);
          var c := cacheCoins[o.point].coin;
          if !c.InMempool() && PositionOf(o.point, c) in cacheCoinRefs {
            ref := Some(PositionOf(o.point, c));
          }
        }
      } else if o.position in cacheCoinRefs {
        found, ref := Some(cacheCoinRefs[o.position]), Some(o.position);
      }
    }

    /** The key of an entry: the position asked for, or else its own if that is indexed. */
    ghost predicate KeyOf(o: OutPoint, p: HashPoint, ref: Option<Position>)
      requires p in cacheCoins
      reads this
    {
      match o
      case ByHash(_) => RefOf(p, ref)
      case ByIndex(x) => ref == Some(x) && x in cacheCoinRefs && cacheCoinRefs[x] == p
    }

    ghost predicate RefOf(p: HashPoint, ref: Option<Position>)
      requires p in cacheCoins
      reads this
    {
      var x := PositionOf(p, cacheCoins[p].coin);
      ref == if !cacheCoins[p].coin.InMempool() && x in cacheCoinRefs then Some(x) else None
    }

    /** What the asserts of a spend by hash demand: the index has the position of the entry. */
    ghost predicate Present(o: OutPoint)
      reads this
    {
      o.ByHash? && o.point in cacheCoins && !cacheCoins[o.point].coin.InMempool() ==>
        PositionOf(o.point, cacheCoins[o.point].coin) in cacheCoinRefs
    }

    lemma IndexedIsPresent(plan: Plan, o: OutPoint)
      requires OwnIndex(plan) && plan.Some?
      ensures Present(o)
    {
      if o.ByHash? && o.point in cacheCoins {
        assert CoinsOf(cacheCoins)[o.point] == cacheCoins[o.point].coin;
      }
    }

    lemma KeyIsRef(plan: Plan, o: OutPoint, p: HashPoint, ref: Option<Position>)
      requires OwnIndex(plan) && plan.Some? && p in cacheCoins && KeyOf(o, p, ref)
      ensures RefOf(p, ref)
    {
      assert CoinsOf(cacheCoins)[p] == cacheCoins[p].coin;
    }

    method TakeCopy(p: HashPoint, c: Coin, ghost plan: Plan) returns (ref: Option<Position>)
      requires OwnIndex(plan) && Fits(p, c, plan) && p !in cacheCoins
      modifies this
      ensures OwnIndex(plan)
      ensures cacheCoins == old(cacheCoins)[p := Entry(c, false, c.IsSpent())]
      ensures cacheCoinRefs == WithRef(old(cacheCoinRefs), p, c)
      ensures RefOf(p, ref) && (c.InMempool() || ref.Some?)
    {
      if plan.Some? {
        InversePut(CoinsOf(cacheCoins), cacheCoinRefs, plan.value, p, c);
      }
      CoinsOfPut(p, Entry(c, false, c.IsSpent()));
      if c.InMempool() {
        ref := None;
      } else {
        cacheCoinRefs := cacheCoinRefs[PositionOf(p, c) := p];
        ref := Some(PositionOf(p, c));
      }
      cacheCoins := cacheCoins[p := Entry(c, false, c.IsSpent())];
    }

    method GetFromBase(o: OutPoint, ghost plan: Plan) returns (r: Option<(HashPoint, Coin)>)
      requires Valid() && BaseIndexed(plan) && Coherent(BaseModel()) && BaseAskable(o)
      modifies Repr - {this}
      ensures BaseIndexed(plan)
      ensures BaseModel() == FetchTarget(old(BaseModel()), old(BaseNamed(o)))
      ensures r == LookupTarget(old(BaseModel()), old(BaseNamed(o)))
      ensures r.Some? ==> Fits(r.value.0, r.value.1, plan)
      decreases Repr, 0
    {
      if base == null {
        r := db.GetCoin(o);
      } else {
        r := base.GetCoin(o, plan);
      }
    }

    /** Takes a copy of what the base has for `o`. */
    method FetchFromBase(o: OutPoint, ghost plan: Plan) returns (found: Option<HashPoint>, ref: Option<Position>)
      requires Sound(plan) && BaseAskable(o) && (BaseNamed(o).Some? ==> BaseNamed(o).value !in cacheCoins)
      modifies Repr
      ensures Sound(plan)
      ensures Model() == FetchTarget(old(Model()), old(BaseNamed(o)))
      ensures found == if LookupTarget(old(Model()), old(BaseNamed(o))).Some? then old(BaseNamed(o)) else None
      ensures found.Some? ==>
        && found.value in cacheCoins && RefOf(found.value, ref)
        && (cacheCoins[found.value].coin.InMempool() || ref.Some?)
      decreases Repr, 1
    {
      FetchTargetKeeps(Model(), BaseNamed(o));
      found, ref := None, None;
      var r := GetFromBase(o, plan);
      if r.Some? {
        var (p, c) := r.value;
        ref := TakeCopy(p, c, plan);
        found := Some(p);
      }
    }

    /** Returns the key of the cached entry and its key in the position index. */
    method FetchCoin(o: OutPoint, ghost plan: Plan) returns (found: Option<HashPoint>, ref: Option<Position>)
      requires Sound(plan) && Askable(o)
      modifies Repr
      ensures Sound(plan)
      ensures Model() == FetchTarget(old(Model()), old(Named(o)))
      ensures found == if LookupTarget(old(Model()), old(Named(o))).Some? then old(Named(o)) else None
      ensures found.Some? ==> found.value in cacheCoins
      ensures found.Some? && ref.Some? ==> ref.value in cacheCoinRefs
      ensures found.Some? && plan.Some? ==> RefOf(found.value, ref)
      ensures found.Some? ==>
        (cacheCoins[found.value].coin.InMempool() || ref.Some? <==> old(Present(o)))
      decreases Repr, 2
    {
      found, ref := FindLocal(o);
      if found == None {
        found, ref := FetchFromBase(o, plan);
      } else if plan.Some? {
        KeyIsRef(plan, o, found.value, ref);
      }
    }

    method GetCoin(o: OutPoint, ghost plan: Plan) returns (r: Option<(HashPoint, Coin)>)
      requires Sound(plan) && Askable(o)
      modifies Repr
      ensures Sound(plan)
      ensures Model() == FetchTarget(old(Model()), old(Named(o)))
      ensures r == LookupTarget(old(Model()), old(Named(o)))
      ensures r.Some? ==> Fits(r.value.0, r.value.1, plan)
      decreases Repr, 3
    {
      FetchTargetKeeps(Model(), Named(o));
      var found, _ := FetchCoin(o, plan);
      r := match found case None => None case Some(p) => Some((p, cacheCoins[p].coin));
      assert found.Some? ==> CoinsOf(cacheCoins)[found.value] == cacheCoins[found.value].coin;
    }

    method HaveCoin(o: OutPoint, ghost plan: Plan) returns (b: bool)
      requires Sound(plan) && Askable(o)
      modifies Repr
      ensures Sound(plan)
      ensures Visible(Model()) == old(Visible(Model()))
      ensures b <==> old(Named(o)).Some? && old(Named(o)).value in Visible(Model())
    {
      ghost var v, t := Model(), Named(o);
      FetchTargetKeeps(v, t);
      assert Visible(v) == Levels(v)[0];
      if t.Some? {
        LookupIsVisible(v, t.value);
      }
      var r := GetCoin(o, plan);
      assert Visible(Model()) == Levels(Model())[0];
      b := r.Some? && !r.value.1.IsSpent();
    }

    ghost function SideRepr(): set<object> {
      if sibling == null then {} else sibling.Repr
    }

    ghost predicate SoundPair(plan: Plan)
      reads Repr, SideRepr()
    {
      Sound(plan) && Paired() && (sibling != null ==> sibling.Sound(plan))
    }

    method AddCoin(p: HashPoint, c: Coin, overwrite: bool, ghost plan: Plan) returns (ok: bool)
      requires SoundPair(plan) && !c.IsSpent() && Fits(p, c, plan)
      modifies Repr, SideRepr()
      ensures ok <==>
        && !AddThrows(old(Model()), p, c, overwrite)
        && (sibling != null && IsWitness(c.out) ==> !AddThrows(old(sibling.Model()), p, c, overwrite))
      ensures ok ==> Model() == Add(old(Model()), p, c, overwrite)
      ensures ok && sibling != null ==>
        sibling.Model() == if IsWitness(c.out) then Add(old(sibling.Model()), p, c, overwrite) else old(sibling.Model())
      ensures ok ==> c.out.isUnspendable || ExactAfterPut(old(cacheCoins), old(cacheCoinRefs), p, c)
      ensures ok && (overwrite || c.out.isUnspendable || p !in Visible(old(Model()))) ==> Sound(plan)
      ensures ok && sibling != null && (overwrite || c.out.isUnspendable || p !in Visible(old(sibling.Model()))) ==>
        sibling.Sound(plan)
      decreases sibling != null
    {
      if sibling != null && IsWitness(c.out) {
        ok := sibling.AddCoin(p, c, overwrite, plan);
        if !ok {
          return;
        }
      }
      ok := AddOwn(p, c, overwrite, plan);
    }

    method AddOwn(p: HashPoint, c: Coin, overwrite: bool, ghost plan: Plan) returns (ok: bool)
      requires Sound(plan) && !c.IsSpent() && Fits(p, c, plan)
      modifies this
      ensures ok <==> !AddThrows(old(Model()), p, c, overwrite)
      ensures ok ==> Model() == Add(old(Model()), p, c, overwrite)
      ensures cacheCoinRefs == if c.out.isUnspendable then old(cacheCoinRefs) else WithRef(old(cacheCoinRefs), p, c)
      ensures ok ==> c.out.isUnspendable || ExactAfterPut(old(cacheCoins), old(cacheCoinRefs), p, c)
      ensures ok && (overwrite || c.out.isUnspendable || p !in Visible(old(Model()))) ==> Sound(plan)
    {
      if c.out.isUnspendable {
        return true;
      }
      AddKeeps(Model(), p, c, overwrite);
      if Inverse(CoinsOf(cacheCoins), cacheCoinRefs) {
        PutIndexIff(CoinsOf(cacheCoins), cacheCoinRefs, p, c);
      }
      ok := Put(p, c, overwrite, plan);
    }

    method Put(p: HashPoint, c: Coin, overwrite: bool, ghost plan: Plan) returns (ok: bool)
      requires OwnIndex(plan) && Fits(p, c, plan)
      modifies this
      ensures ok <==> overwrite || EntryOrEmpty(old(cacheCoins), p).coin.IsSpent()
      ensures ok ==> OwnIndex(plan)
      ensures ok ==> var e := EntryOrEmpty(old(cacheCoins), p);
        cacheCoins == old(cacheCoins)[p := Entry(c, true, e.isFresh || (!overwrite && !e.isDirty))]
      ensures ok ==> CoinsOf(cacheCoins) == CoinsOf(old(cacheCoins))[p := c]
      ensures cacheCoinRefs == WithRef(old(cacheCoinRefs), p, c)
    {
      if plan.Some? {
        InversePut(CoinsOf(cacheCoins), cacheCoinRefs, plan.value, p, c);
      }
      if !c.InMempool() {
        cacheCoinRefs := cacheCoinRefs[PositionOf(p, c) := p];
      }
      var e := EntryOrEmpty(cacheCoins, p);
      if !overwrite && !e.coin.IsSpent() {
        return false;
      }
      var isFresh := !overwrite && !e.isDirty;
      CoinsOfPut(p, Entry(c, true, e.isFresh || isFresh));
      cacheCoins := cacheCoins[p := Entry(c, true, e.isFresh || isFresh)];
      ok := true;
    }

    /** Returns the coin that was moved out, with the outpoint it was cached under.
        Fails where the source asserts that the entry is in the position index. */
    method SpendCoin(o: OutPoint, keepFresh: bool, ghost plan: Plan)
      returns (ok: bool, undo: Option<(HashPoint, Coin)>)
      requires SoundPair(plan) && Askable(o) && (sibling != null ==> sibling.Askable(o))
      modifies Repr, SideRepr()
      ensures ok <==> old(Present(o)) && (sibling != null ==> old(sibling.Present(o)))
      ensures plan.Some? ==> ok
      ensures ok ==> SoundPair(plan)
      ensures ok ==> Model() == SpendTarget(old(Model()), old(Named(o)), keepFresh)
      ensures ok ==> undo == LookupTarget(old(Model()), old(Named(o)))
      ensures ok && sibling != null ==>
        sibling.Model() == SpendTarget(old(sibling.Model()), old(sibling.Named(o)), true)
      decreases sibling != null
    {
      if sibling != null {
        ok, undo := sibling.SpendCoin(o, true, plan);
        if !ok {
          return;
        }
      }
      ok, undo := SpendOwn(o, keepFresh, plan);
    }

    method SpendOwn(o: OutPoint, keepFresh: bool, ghost plan: Plan)
      returns (ok: bool, undo: Option<(HashPoint, Coin)>)
      requires Sound(plan) && Askable(o)
      modifies Repr
      ensures ok <==> old(Present(o))
      ensures plan.Some? ==> ok
      ensures ok ==> Sound(plan)
      ensures ok ==> Model() == SpendTarget(old(Model()), old(Named(o)), keepFresh)
      ensures ok ==> undo == LookupTarget(old(Model()), old(Named(o)))
    {
      ghost var v, t := Model(), Named(o);
      FetchTargetKeeps(v, t);
      if t.Some? {
        SpendKeeps(v, t.value, keepFresh);
        FetchKeeps(v, t.value);
      }
      if plan.Some? {
        IndexedIsPresent(plan, o);
      }
      var found, ref := FetchCoin(o, plan);
      if found == None {
        return true, None;
      }
      var c := cacheCoins[found.value].coin;
      if !c.InMempool() && ref == None {
        return false, None;
      }
      undo := Some((found.value, c));
      Remove(found.value, ref, keepFresh, plan);
      ok := true;
    }

    method Remove(p: HashPoint, ref: Option<Position>, keepFresh: bool, ghost plan: Plan)
      requires OwnIndex(plan) && p in cacheCoins
      requires (ref.Some? ==> ref.value in cacheCoinRefs) && (plan.Some? ==> RefOf(p, ref))
      modifies this
      ensures OwnIndex(plan)
      ensures var e := old(cacheCoins)[p];
        cacheCoins ==
          if !keepFresh && e.isFresh then old(cacheCoins) - {p}
          else old(cacheCoins)[p := Entry(e.coin.Spend(), true, e.isFresh)]
    {
      var e := cacheCoins[p];
      assert CoinsOf(cacheCoins)[p] == e.coin;
      if !keepFresh && e.isFresh {
        Erase(p, ref, plan);
      } else {
        CoinsOfPut(p, Entry(e.coin.Spend(), true, e.isFresh));
        if plan.Some? {
          InversePut(CoinsOf(cacheCoins), cacheCoinRefs, plan.value, p, e.coin.Spend());
          assert cacheCoinRefs == if e.coin.InMempool() then cacheCoinRefs else cacheCoinRefs[plan.value(p) := p];
        }
        cacheCoins := cacheCoins[p := Entry(e.coin.Spend(), true, e.isFresh)];
      }
    }

    /** Drops an entry together with its key in the position index, if it has one. */
    method Erase(p: HashPoint, ref: Option<Position>, ghost plan: Plan)
      requires OwnIndex(plan) && p in cacheCoins
      requires (ref.Some? ==> ref.value in cacheCoinRefs) && (plan.Some? ==> RefOf(p, ref))
      modifies this
      ensures OwnIndex(plan) && cacheCoins == old(cacheCoins) - {p}
      ensures cacheCoinRefs ==
        if ref.Some? && old(cacheCoinRefs)[ref.value] == p then old(cacheCoinRefs) - {ref.value} else old(cacheCoinRefs)
    {
      assert CoinsOf(cacheCoins)[p] == cacheCoins[p].coin;
      if plan.Some? {
        InverseRemove(CoinsOf(cacheCoins), cacheCoinRefs, plan.value, p);
      }
      assert CoinsOf(cacheCoins - {p}) == CoinsOf(cacheCoins) - {p};
      if ref.Some? && cacheCoinRefs[ref.value] == p {
        cacheCoinRefs := cacheCoinRefs - {ref.value};
      } else if plan.Some? {
        assert plan.value(p) !in cacheCoinRefs;
        assert cacheCoinRefs - {plan.value(p)} == cacheCoinRefs;
      }
      cacheCoins := cacheCoins - {p};
    }

    method Uncache(o: OutPoint, ghost plan: Plan)
      requires SoundPair(plan)
      modifies Repr, SideRepr()
      ensures SoundPair(plan)
      ensures Model() == UncacheTarget(old(Model()), old(LocalNamed(o)))
      ensures sibling != null ==> sibling.Model() == UncacheTarget(old(sibling.Model()), old(sibling.LocalNamed(o)))
      decreases sibling != null
    {
      if sibling != null {
        sibling.Uncache(o, plan);
      }
      UncacheOwn(o, plan);
    }

    method UncacheOwn(o: OutPoint, ghost plan: Plan)
      requires Sound(plan)
      modifies this
      ensures Sound(plan)
      ensures Model() == UncacheTarget(old(Model()), old(LocalNamed(o)))
    {
      if LocalNamed(o).Some? {
        UncacheKeeps(Model(), LocalNamed(o).value);
      }
      if o.ByIndex? && o.position !in cacheCoinRefs {
        return;
      }
      var p := match o case ByHash(q) => q case ByIndex(x) => cacheCoinRefs[x];
      if p in cacheCoins && !cacheCoins[p].isDirty && !cacheCoins[p].isFresh {
        var _, ref := FindLocal(ByHash(p));
        Erase(p, ref, plan);
      }
    }

    /** One step of the merging loop: `later` says that the position is to be
        indexed once all entries are merged. */
    method MergeIn(p: HashPoint, e: Entry) returns (ok: bool, later: bool)
      modifies this
      ensures ok <==> !MisappliedAt(old(cacheCoins), map[p := e], p)
      ensures ok ==> cacheCoins == MergeOne(old(cacheCoins), p, e)
      ensures ok ==> cacheCoinRefs == old(cacheCoinRefs) - DropKeys(old(cacheCoins), map[p := e])
      ensures ok ==> later == Inserts(old(cacheCoins), map[p := e], p)
    {
      ok, later := true, false;
      if !e.isDirty {
        return;
      }
      if p !in cacheCoins {
        if !(e.isFresh && e.coin.IsSpent()) {
          cacheCoins := cacheCoins[p := Entry(e.coin, true, e.isFresh)];
          later := !e.coin.InMempool();
        } else {
          assert cacheCoins == MergeOne(cacheCoins, p, e);
        }
      } else {
        var ours := cacheCoins[p];
        if e.isFresh && !ours.coin.IsSpent() {
          return false, false;
        }
        if ours.isFresh && e.coin.IsSpent() {
          if !ours.coin.InMempool() {
            cacheCoinRefs := cacheCoinRefs - {PositionOf(p, ours.coin)};
          }
          cacheCoins := cacheCoins - {p};
        } else {
          cacheCoins := cacheCoins[p := Entry(e.coin, true, ours.isFresh)];
        }
      }
    }

    /** One of the two loops after the merge: spent entries are indexed first. */
    method IndexPending(modified: seq<HashPoint>, spent: bool) returns (ghost pool: Pool)
      modifies this`cacheCoinRefs
      ensures PoolsNew(cacheCoins, modified, spent, pool)
      ensures PooledInto(old(cacheCoinRefs), pool, cacheCoinRefs)
    {
      pool := [];
      for i := 0 to |modified|
        invariant PoolsNew(cacheCoins, modified[..i], spent, pool)
        invariant PooledInto(old(cacheCoinRefs), pool, cacheCoinRefs)
      {
        var p := modified[i];
        assert modified[..i + 1] == modified[..i] + [p];
        if p in cacheCoins && cacheCoins[p].coin.IsSpent() == spent {
          var x := PositionOf(p, cacheCoins[p].coin);
          PooledOn(old(cacheCoinRefs), pool, cacheCoinRefs, x, p);
          cacheCoinRefs := cacheCoinRefs[x := p];
          pool := pool + [(x, p)];
        }
      }
      assert modified[..|modified|] == modified;
    }

    /** Visits the batch in an arbitrary order. Returns the entries whose positions
        are yet to be indexed. */
    method MergeBatch(batch: Entries) returns (ok: bool, modified: seq<HashPoint>)
      modifies this
      ensures ok <==> !Misapplied(old(cacheCoins), batch)
      ensures ok ==> cacheCoins == MergeAll(old(cacheCoins), batch)
      ensures ok ==> cacheCoinRefs == old(cacheCoinRefs) - DropKeys(old(cacheCoins), batch)
      ensures ok ==> ModifiedBy(old(cacheCoins), batch, modified)
    {
      var keys := batch.Keys;
      modified := [];
      assert cacheCoins == MergeAll(cacheCoins, batch - keys);
      while keys != {}
        invariant keys <= batch.Keys
        invariant cacheCoins == MergeAll(old(cacheCoins), batch - keys)
        invariant cacheCoinRefs == old(cacheCoinRefs) - DropKeys(old(cacheCoins), batch - keys)
        invariant ModifiedBy(old(cacheCoins), batch - keys, modified)
        invariant forall p :: p in batch && p !in keys ==> !MisappliedAt(old(cacheCoins), batch, p)
      {
        var p :| p in keys;
        ghost var done, e := batch - keys, batch[p];
        MergeAllStep(old(cacheCoins), batch, keys, p);
        MergeStep(old(cacheCoins), done, cacheCoins, modified, p, e);
        assert batch - (keys - {p}) == done[p := e];
        var fine, later := MergeIn(p, batch[p]);
        if !fine {
          assert MisappliedAt(old(cacheCoins), batch, p);
          return false, modified;
        }
        if later {
          modified := modified + [p];
        }
        keys := keys - {p};
      }
      assert batch - keys == batch;
      ok := true;
    }

    method BatchWrite(batch: Entries, ghost plan: Plan) returns (ok: bool)
      requires OwnIndex(plan) && AllFit(CoinsOf(batch), plan)
      modifies this
      ensures ok <==> !Misapplied(old(cacheCoins), batch)
      ensures ok ==> cacheCoins == MergeAll(old(cacheCoins), batch)
      ensures ok ==> RefsMerged(old(cacheCoins), old(cacheCoinRefs), batch, cacheCoinRefs)
      ensures ok ==> OwnIndex(plan)
    {
      var modified;
      ok, modified := MergeBatch(batch);
      if ok {
        ghost var spent := IndexPending(modified, true);
        ghost var between := cacheCoinRefs;
        ghost var unspent := IndexPending(modified, false);
        PooledTwice(old(cacheCoins), old(cacheCoinRefs), batch, modified, spent, between, unspent, cacheCoinRefs);
        if plan.Some? {
          MergedIndexPlaced(old(cacheCoins), old(cacheCoinRefs), batch, cacheCoinRefs, plan.value);
        }
      }
    }

    method Flush(ghost plan: Plan) returns (ok: bool)
      requires SoundPair(plan)
      modifies Repr, SideRepr()
      ensures ok && SoundPair(plan)
      ensures Model() == CoinsModel.Flush(old(Model()))
      ensures sibling != null ==> sibling.Model() == CoinsModel.Flush(old(sibling.Model()))
      decreases sibling != null
    {
      if sibling != null {
        var _ := sibling.Flush(plan);
      }
      ok := FlushOwn(plan);
    }

    method FlushOwn(ghost plan: Plan) returns (ok: bool)
      requires Sound(plan)
      modifies Repr
      ensures ok && Sound(plan)
      ensures Model() == CoinsModel.Flush(old(Model()))
    {
      FlushKeeps(Model());
      if Model().base.Cache? {
        NeverMisapplied(Model());
      }
      ok := WriteToBase(cacheCoins, plan);
      cacheCoins, cacheCoinRefs := map[], map[];
    }

    method WriteToBase(batch: Entries, ghost plan: Plan) returns (ok: bool)
      requires Valid() && BaseIndexed(plan) && AllFit(CoinsOf(batch), plan)
      modifies Repr - {this}
      ensures !ok <==> old(BaseModel()).Cache? && Misapplied(old(BaseModel()).entries, batch)
      ensures ok ==> BaseIndexed(plan) && BaseModel() == CoinsModel.BatchWrite(old(BaseModel()), batch)
    {
      if base == null {
        db.BatchWrite(batch, plan);
        ok := true;
      } else {
        ok := base.BatchWrite(batch, plan);
      }
    }

    method GetAllCoins() returns (all: CoinMap)
      requires Valid()
      ensures all == Visible(Model())
      decreases Repr
    {
      if base == null {
        all := db.coins;
      } else {
        all := base.GetAllCoins();
      }
      ghost var below := all;
      var keys := cacheCoins.Keys;
      assert all == Overlay(below, cacheCoins - keys);
      while keys != {}
        invariant keys <= cacheCoins.Keys
        invariant all == Overlay(below, cacheCoins - keys)
      {
        var p :| p in keys;
        OverlayPut(below, cacheCoins - keys, p, cacheCoins[p]);
        assert cacheCoins - (keys - {p}) == (cacheCoins - keys)[p := cacheCoins[p]];
        if cacheCoins[p].coin.IsSpent() {
          all := all - {p};
        } else {
          all := all[p := cacheCoins[p].coin];
        }
        keys := keys - {p};
      }
      assert cacheCoins - keys == cacheCoins;
    }
  }
}

/** The second index of the coins, by chain position, as the inverse of the first. */
module CoinsIndex {
  import opened CoinsModel
  import opened Wrappers

  type Refs = map<Position, HashPoint>

  function PositionOf(p: HashPoint, c: Coin): Position {
    Position(c.height, c.txIndex, p.n)
  }

  predicate AtMempool(x: Position) {
    x.height == MEMPOOL_HEIGHT && x.txIndex == MEMPOOL_INDEX
  }

  type Placement = HashPoint -> Position

  /** One position per outpoint, and no position outside the mempool shared. */
  ghost predicate Unique(at: Placement) {
    forall p, q :: at(p) == at(q) && !AtMempool(at(p)) ==> p == q
  }

  /** A fixed chain position for every outpoint, or none where outpoints may move:
      the claims about the position index are made for the former only. */
  type Plan = Option<Placement>

  ghost predicate Fits(p: HashPoint, c: Coin, plan: Plan) {
    plan.Some? ==> PositionOf(p, c) == plan.value(p)
  }

  function CoinsOf(entries: Entries): CoinMap {
    map p | p in entries :: entries[p].coin
  }

  /** `refs` holds the position of every coin outside the mempool, and nothing else. */
  ghost predicate Inverse(coins: CoinMap, refs: Refs) {
    && (forall p :: p in coins && !coins[p].InMempool() ==>
          PositionOf(p, coins[p]) in refs && refs[PositionOf(p, coins[p])] == p)
    && (forall x :: x in refs ==>
          refs[x] in coins && !coins[refs[x]].InMempool() && PositionOf(refs[x], coins[refs[x]]) == x)
  }

  /** The index holds no choice: the coins determine it. */
  lemma InverseIsUnique(coins: CoinMap, r1: Refs, r2: Refs)
    requires Inverse(coins, r1) && Inverse(coins, r2)
    ensures r1 == r2
  {
    forall x | x in r1 ensures x in r2 && r2[x] == r1[x] {
      assert PositionOf(r1[x], coins[r1[x]]) == x;
    }
    forall x | x in r2 ensures x in r1 {
      assert PositionOf(r2[x], coins[r2[x]]) == x;
    }
  }

  ghost predicate PositionsUnique(coins: CoinMap) {
    forall p, q ::
      && p in coins && !coins[p].InMempool()
      && q in coins && !coins[q].InMempool()
      && PositionOf(p, coins[p]) == PositionOf(q, coins[q])
      ==> p == q
  }

  /** An exact index exists just when no two cached outpoints share a position. */
  lemma IndexExistsIffUnique(coins: CoinMap)
    ensures (exists refs :: Inverse(coins, refs)) <==> PositionsUnique(coins)
  {
    if PositionsUnique(coins) {
      var positions := set p | p in coins && !coins[p].InMempool() :: PositionOf(p, coins[p]);
      var refs := map x | x in positions ::
        var p :| p in coins && !coins[p].InMempool() && PositionOf(p, coins[p]) == x; p;
      assert Inverse(coins, refs);
    }
  }

  ghost predicate Placed(coins: CoinMap, at: Placement) {
    forall p :: p in coins ==> PositionOf(p, coins[p]) == at(p)
  }

  function WithRef(refs: Refs, p: HashPoint, c: Coin): Refs {
    if c.InMempool() then refs else refs[PositionOf(p, c) := p]
  }

  ghost predicate AllFit(coins: CoinMap, plan: Plan) {
    plan.Some? ==> Placed(coins, plan.value)
  }

  /** The index is exact, if outpoints keep their positions. */
  ghost predicate IndexOk(coins: CoinMap, refs: Refs, plan: Plan) {
    plan.Some? ==> Unique(plan.value) && Placed(coins, plan.value) && Inverse(coins, refs)
  }

  ghost function FetchTarget(v: View, t: Option<HashPoint>): View {
    if t.Some? then Fetch(v, t.value) else v
  }

  ghost function LookupTarget(v: View, t: Option<HashPoint>): Option<(HashPoint, Coin)> {
    if t.Some? && Lookup(v, t.value).Some? then Some((t.value, Lookup(v, t.value).value)) else None
  }

  ghost function SpendTarget(v: View, t: Option<HashPoint>, keepFresh: bool): View
    requires v.Cache?
  {
    if t.Some? then Spend(v, t.value, keepFresh) else v
  }

  ghost function UncacheTarget(v: View, t: Option<HashPoint>): View
    requires v.Cache?
  {
    if t.Some? then Uncache(v, t.value) else v
  }

  lemma FetchTargetKeeps(v: View, t: Option<HashPoint>)
    requires v.Cache? && Coherent(v)
    ensures Coherent(FetchTarget(v, t)) && FetchTarget(v, t).Cache?
    ensures Levels(FetchTarget(v, t)) == Levels(v)
    ensures LookupTarget(v, t).Some? ==>
      && t == Some(LookupTarget(v, t).value.0)
      && t.value in FetchTarget(v, t).entries
      && FetchTarget(v, t).entries[t.value].coin == LookupTarget(v, t).value.1
  {
    if t.Some? {
      FetchKeeps(v, t.value);
    }
  }

  /** A position is indexed exactly when the outpoint placed there has a coin, and
      leads to that outpoint. */
  lemma RefsFollowPlacement(coins: CoinMap, refs: Refs, at: Placement, x: Position)
    requires Inverse(coins, refs) && Placed(coins, at) && Unique(at) && !AtMempool(x)
    ensures forall p :: at(p) == x ==> (x in refs <==> p in coins) && (x in refs ==> refs[x] == p)
    ensures x in refs ==> refs[x] in coins && at(refs[x]) == x
  {
    if x in refs {
      assert PositionOf(refs[x], coins[refs[x]]) == at(refs[x]);
    }
    forall p | at(p) == x && p in coins ensures x in refs {
      assert PositionOf(p, coins[p]) == at(p);
    }
  }

  /** What is not there is not fetched. */
  lemma {:induction false} FetchNothing(v: View, p: HashPoint)
    requires Lookup(v, p).None?
    ensures Fetch(v, p) == v
  {
    if v.Cache? {
      FetchNothing(v.base, p);
    }
  }

  lemma InversePut(coins: CoinMap, refs: Refs, at: Placement, p: HashPoint, c: Coin)
    requires Inverse(coins, refs) && Placed(coins, at) && Unique(at) && PositionOf(p, c) == at(p)
    ensures Placed(coins[p := c], at)
    ensures Inverse(coins[p := c], if c.InMempool() then refs else refs[at(p) := p])
  {
    var coins' := coins[p := c];
    var refs' := if c.InMempool() then refs else refs[at(p) := p];
    forall x | x in refs'
      ensures refs'[x] in coins' && !coins'[refs'[x]].InMempool() && PositionOf(refs'[x], coins'[refs'[x]]) == x
    {
      if x in refs {
        assert PositionOf(refs[x], coins[refs[x]]) == at(refs[x]);
      }
    }
    forall q | q in coins' && !coins'[q].InMempool()
      ensures PositionOf(q, coins'[q]) in refs' && refs'[PositionOf(q, coins'[q])] == q
    {
      assert q != p ==> at(q) != at(p);
    }
  }

  /** Wherever the coin goes: the index is exact after a put just when no two coins
      share a position then, and the coin did not leave one. */
  lemma PutIndexIff(coins: CoinMap, refs: Refs, p: HashPoint, c: Coin)
    requires Inverse(coins, refs)
    ensures Inverse(coins[p := c], WithRef(refs, p, c)) <==> PositionsUnique(coins[p := c]) && KeepsPlace(coins, p, c)
  {
    var coins', refs' := coins[p := c], WithRef(refs, p, c);
    if PositionsUnique(coins') && KeepsPlace(coins, p, c) {
      forall x | x in refs'
        ensures refs'[x] in coins' && !coins'[refs'[x]].InMempool() && PositionOf(refs'[x], coins'[refs'[x]]) == x
      {
        assert x in refs ==> PositionOf(refs[x], coins[refs[x]]) == x;
      }
      forall q | q in coins' && !coins'[q].InMempool()
        ensures PositionOf(q, coins'[q]) in refs' && refs'[PositionOf(q, coins'[q])] == q
      {
        assert q != p ==> refs[PositionOf(q, coins[q])] == q;
      }
    }
    if Inverse(coins', refs') && p in coins && !coins[p].InMempool() {
      var x := PositionOf(p, coins[p]);
      assert x in refs && refs[x] == p;
      assert x in refs';
    }
  }

  predicate KeepsPlace(coins: CoinMap, p: HashPoint, c: Coin) {
    p in coins && !coins[p].InMempool() ==> PositionOf(p, c) == PositionOf(p, coins[p])
  }

  lemma InverseRemove(coins: CoinMap, refs: Refs, at: Placement, p: HashPoint)
    requires Inverse(coins, refs) && Placed(coins, at) && Unique(at)
    ensures Placed(coins - {p}, at)
    ensures Inverse(coins - {p}, refs - {at(p)})
  {
    forall x | x in refs - {at(p)} ensures refs[x] != p {
      assert PositionOf(refs[x], coins[refs[x]]) == at(refs[x]);
    }
    forall q | q in coins - {p} && !coins[q].InMempool() ensures at(q) in refs - {at(p)} {
      assert PositionOf(q, coins[q]) == at(q);
    }
  }
}

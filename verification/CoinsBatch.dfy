/** What a batch of entries does to the coins and to the position index of the
    view below, whatever the order of visits and wherever the coins have moved. */
module CoinsBatch {
  import opened CoinsModel
  import opened CoinsIndex
  import opened Wrappers

  lemma StoreAllStep(stored: CoinMap, batch: Entries, keys: set<HashPoint>, p: HashPoint)
    requires p in keys && keys <= batch.Keys
    ensures StoreAll(stored, batch - (keys - {p})) == StoreOne(StoreAll(stored, batch - keys), p, batch[p])
  {
    assert StoreAll(stored, batch - (keys - {p})) == StoreOne(StoreAll(stored, batch - keys), p, batch[p]);
  }

  function StoreOne(stored: CoinMap, p: HashPoint, e: Entry): CoinMap {
    if !e.isDirty then stored else if e.coin.IsSpent() then stored - {p} else stored[p := e.coin]
  }

  function MergeOne(ours: Entries, p: HashPoint, e: Entry): Entries {
    if !e.isDirty then ours else
    match MergeEntry(Get(ours, p), e)
    case None => ours - {p}
    case Some(m) => ours[p := m]
  }

  lemma MergeAllStep(ours: Entries, batch: Entries, keys: set<HashPoint>, p: HashPoint)
    requires p in keys && keys <= batch.Keys
    ensures MergeAll(ours, batch - (keys - {p})) == MergeOne(MergeAll(ours, batch - keys), p, batch[p])
    ensures Get(MergeAll(ours, batch - keys), p) == Get(ours, p)
  {
    var before, after := MergeAll(ours, batch - keys), MergeAll(ours, batch - (keys - {p}));
    assert Get(before, p) == Get(ours, p);
    forall q ensures Get(after, q) == Get(MergeOne(before, p, batch[p]), q) {
      assert q != p ==> (q in batch - keys <==> q in batch - (keys - {p}));
    }
    SameEntries(after, MergeOne(before, p, batch[p]));
  }

  lemma SameEntries(a: Entries, b: Entries)
    requires forall q :: Get(a, q) == Get(b, q)
    ensures a == b
  {
    forall q ensures q in a <==> q in b {
      assert Get(a, q) == Get(b, q);
    }
    forall q | q in a ensures a[q] == b[q] {
      assert Get(a, q) == Get(b, q);
    }
  }

  // ----- the index of the database

  function OnChain(refs: Refs): Refs {
    map x | x in refs && !AtMempool(x) :: refs[x]
  }

  ghost predicate Erases(batch: Entries, p: HashPoint, x: Position) {
    p in batch && batch[p].isDirty && batch[p].coin.IsSpent() && PositionOf(p, batch[p].coin) == x
  }

  ghost predicate Writes(batch: Entries, p: HashPoint, x: Position) {
    p in batch && batch[p].isDirty && !batch[p].coin.IsSpent() && PositionOf(p, batch[p].coin) == x
  }

  /** All erasures first, then the writes in some order. */
  ghost predicate RefsWritten(refs: Refs, batch: Entries, refs': Refs) {
    forall x :: RefWritten(refs, batch, refs', x)
  }

  ghost predicate RefWritten(refs: Refs, batch: Entries, refs': Refs, x: Position) {
    if exists p :: Writes(batch, p, x) then x in refs' && Writes(batch, refs'[x], x)
    else ErasedAt(refs, batch, refs', x)
  }

  ghost predicate ErasedBy(refs: Refs, batch: Entries, refs': Refs) {
    forall x :: ErasedAt(refs, batch, refs', x)
  }

  ghost predicate ErasedAt(refs: Refs, batch: Entries, refs': Refs, x: Position) {
    && (x in refs' <==> x in refs && !exists p :: Erases(batch, p, x))
    && (x in refs' ==> refs'[x] == refs[x])
  }

  type Pool = seq<(Position, HashPoint)>

  /** The pool holds what the batch writes to the index, and nothing else. */
  ghost predicate Pools(batch: Entries, pool: Pool) {
    forall p, x :: Writes(batch, p, x) <==> (x, p) in pool
  }

  ghost predicate PooledAt(refs: Refs, pool: Pool, refs': Refs, x: Position) {
    if exists p :: (x, p) in pool then x in refs' && (x, refs'[x]) in pool
    else (x in refs' <==> x in refs) && (x in refs' ==> refs'[x] == refs[x])
  }

  ghost predicate PooledInto(refs: Refs, pool: Pool, refs': Refs) {
    forall x :: PooledAt(refs, pool, refs', x)
  }

  lemma ErasedOn(refs: Refs, batch: Entries, refs': Refs, p: HashPoint, e: Entry)
    requires ErasedBy(refs, batch, refs') && p !in batch
    ensures ErasedBy(refs, batch[p := e],
                     if e.isDirty && e.coin.IsSpent() then refs' - {PositionOf(p, e.coin)} else refs')
  {
    var more := batch[p := e];
    var after := if e.isDirty && e.coin.IsSpent() then refs' - {PositionOf(p, e.coin)} else refs';
    forall x ensures ErasedAt(refs, more, after, x) {
      assert ErasedAt(refs, batch, refs', x);
      if q :| Erases(batch, q, x) {
        assert Erases(more, q, x);
      } else {
        forall q | Erases(more, q, x) ensures q == p {
          assert q != p ==> Erases(batch, q, x);
        }
        assert Erases(more, p, x) <==> e.isDirty && e.coin.IsSpent() && PositionOf(p, e.coin) == x;
      }
    }
  }

  lemma PoolsOn(batch: Entries, pool: Pool, p: HashPoint, e: Entry)
    requires Pools(batch, pool) && p !in batch
    ensures Pools(batch[p := e],
                  if e.isDirty && !e.coin.IsSpent() then pool + [(PositionOf(p, e.coin), p)] else pool)
  {
  }

  lemma PooledOn(refs: Refs, pool: Pool, refs': Refs, x: Position, p: HashPoint)
    requires PooledInto(refs, pool, refs')
    ensures PooledInto(refs, pool + [(x, p)], refs'[x := p])
  {
    var more, after := pool + [(x, p)], refs'[x := p];
    forall y ensures PooledAt(refs, more, after, y) {
      assert PooledAt(refs, pool, refs', y);
      assert (x, p) in more;
      if q :| (y, q) in pool {
        assert (y, q) in more;
      }
    }
  }

  lemma PooledIsWritten(refs: Refs, batch: Entries, erased: Refs, pool: Pool, refs': Refs)
    requires ErasedBy(refs, batch, erased) && Pools(batch, pool) && PooledInto(erased, pool, refs')
    ensures RefsWritten(refs, batch, refs')
  {
    forall x ensures RefWritten(refs, batch, refs', x) {
      assert PooledAt(erased, pool, refs', x);
      if p :| Writes(batch, p, x) {
        assert (x, p) in pool;
      } else {
        assert forall p :: (x, p) !in pool;
      }
    }
  }

  predicate Changes(batch: Entries, p: HashPoint) {
    p in batch && batch[p].isDirty
  }

  /** The old position of a coin that the batch changes is erased or taken over. */
  ghost predicate NoneLeft(stored: CoinMap, batch: Entries) {
    forall p :: p in stored && Changes(batch, p) && !stored[p].InMempool() ==>
      var x := PositionOf(p, stored[p]);
      (exists q :: Erases(batch, q, x)) || (exists q :: Writes(batch, q, x))
  }

  /** No position is erased whose coin the batch does not change. */
  ghost predicate NoneLost(stored: CoinMap, batch: Entries) {
    forall p, q :: p in stored && !Changes(batch, p) && !stored[p].InMempool() ==>
      !Erases(batch, q, PositionOf(p, stored[p]))
  }

  /** A batch may move coins and hand positions from one coin to another, as a
      reorganisation does. The index is exact afterwards just when the coins then
      stored have positions of their own, no key is left over and none is lost. */
  lemma StoredIndexIff(stored: CoinMap, refs: Refs, batch: Entries, refs': Refs)
    requires Inverse(stored, OnChain(refs)) && RefsWritten(refs, batch, refs')
    ensures Inverse(StoreAll(stored, batch), OnChain(refs')) <==>
      PositionsUnique(StoreAll(stored, batch)) && NoneLeft(stored, batch) && NoneLost(stored, batch)
  {
    if PositionsUnique(StoreAll(stored, batch)) && NoneLeft(stored, batch) && NoneLost(stored, batch) {
      StoredIndex(stored, refs, batch, refs');
    }
    if Inverse(StoreAll(stored, batch), OnChain(refs')) {
      StoredIndexNeeds(stored, refs, batch, refs');
    }
  }

  lemma StoredIndex(stored: CoinMap, refs: Refs, batch: Entries, refs': Refs)
    requires Inverse(stored, OnChain(refs)) && RefsWritten(refs, batch, refs')
    requires PositionsUnique(StoreAll(stored, batch)) && NoneLeft(stored, batch) && NoneLost(stored, batch)
    ensures Inverse(StoreAll(stored, batch), OnChain(refs'))
  {
    var coins := StoreAll(stored, batch);
    forall p | p in coins && !coins[p].InMempool()
      ensures PositionOf(p, coins[p]) in OnChain(refs') && OnChain(refs')[PositionOf(p, coins[p])] == p
    {
      var x := PositionOf(p, coins[p]);
      assert RefWritten(refs, batch, refs', x);
      if exists q :: Writes(batch, q, x) {
        assert refs'[x] in coins && coins[refs'[x]] == batch[refs'[x]].coin;
      } else {
        assert !Writes(batch, p, x);
        assert x in OnChain(refs) && refs[x] == p;
      }
    }
    forall x | x in OnChain(refs')
      ensures refs'[x] in coins && !coins[refs'[x]].InMempool() && PositionOf(refs'[x], coins[refs'[x]]) == x
    {
      assert RefWritten(refs, batch, refs', x);
      if !exists p :: Writes(batch, p, x) {
        assert x in OnChain(refs);
      }
    }
  }

  lemma StoredIndexNeeds(stored: CoinMap, refs: Refs, batch: Entries, refs': Refs)
    requires Inverse(stored, OnChain(refs)) && RefsWritten(refs, batch, refs')
    requires Inverse(StoreAll(stored, batch), OnChain(refs'))
    ensures PositionsUnique(StoreAll(stored, batch)) && NoneLeft(stored, batch) && NoneLost(stored, batch)
  {
    var coins := StoreAll(stored, batch);
    forall p | p in stored && !stored[p].InMempool()
      ensures var x := PositionOf(p, stored[p]);
        if Changes(batch, p) then (exists q :: Erases(batch, q, x)) || (exists q :: Writes(batch, q, x))
        else !exists q :: Erases(batch, q, x)
    {
      var x := PositionOf(p, stored[p]);
      assert RefWritten(refs, batch, refs', x);
      assert x in OnChain(refs) && refs[x] == p;
      if Changes(batch, p) {
        assert x in OnChain(refs') && OnChain(refs')[x] == p ==> Writes(batch, p, x);
      } else {
        assert p in coins && coins[p] == stored[p];
        assert x in OnChain(refs') && OnChain(refs')[x] == p;
      }
    }
  }

  /** While outpoints keep their positions the condition is always met. */
  lemma StoredIndexPlaced(stored: CoinMap, refs: Refs, batch: Entries, refs': Refs, at: Placement)
    requires Inverse(stored, OnChain(refs)) && RefsWritten(refs, batch, refs')
    requires Unique(at) && Placed(stored, at) && Placed(CoinsOf(batch), at)
    ensures Placed(StoreAll(stored, batch), at)
    ensures Inverse(StoreAll(stored, batch), OnChain(refs'))
  {
    forall p | p in batch ensures PositionOf(p, batch[p].coin) == at(p) {
      assert CoinsOf(batch)[p] == batch[p].coin;
    }
    forall p | p in stored && Changes(batch, p)
      ensures Erases(batch, p, PositionOf(p, stored[p])) || Writes(batch, p, PositionOf(p, stored[p]))
    {
    }
    StoredIndex(stored, refs, batch, refs');
  }

  // ----- the index of a cache

  predicate Drops(ours: Entries, batch: Entries, p: HashPoint) {
    p in ours && Changes(batch, p) && ours[p].isFresh && batch[p].coin.IsSpent() && !ours[p].coin.InMempool()
  }

  function DropKeys(ours: Entries, batch: Entries): set<Position> {
    set p | p in batch && Drops(ours, batch, p) :: PositionOf(p, ours[p].coin)
  }

  /** The entries that are new in the cache and have a position to be indexed. */
  predicate Inserts(ours: Entries, batch: Entries, p: HashPoint) {
    && p !in ours
    && Changes(batch, p)
    && !(batch[p].isFresh && batch[p].coin.IsSpent())
    && !batch[p].coin.InMempool()
  }

  predicate InsertsAt(ours: Entries, batch: Entries, p: HashPoint, spent: bool, x: Position) {
    Inserts(ours, batch, p) && batch[p].coin.IsSpent() == spent && PositionOf(p, batch[p].coin) == x
  }

  /** Where several entries claim a position, an unspent one gets it. */
  ghost predicate RefMerged(ours: Entries, refs: Refs, batch: Entries, refs': Refs, x: Position) {
    if exists p :: InsertsAt(ours, batch, p, false, x) then
      x in refs' && InsertsAt(ours, batch, refs'[x], false, x)
    else if exists p :: InsertsAt(ours, batch, p, true, x) then
      x in refs' && InsertsAt(ours, batch, refs'[x], true, x)
    else
      && (x in refs' <==> x in refs && x !in DropKeys(ours, batch))
      && (x in refs' ==> refs'[x] == refs[x])
  }

  ghost predicate RefsMerged(ours: Entries, refs: Refs, batch: Entries, refs': Refs) {
    forall x :: RefMerged(ours, refs, batch, refs', x)
  }

  /** The pool of one of the two loops that write to the index. */
  ghost predicate PoolsNew(entries: Entries, modified: seq<HashPoint>, spent: bool, pool: Pool) {
    forall p, x :: (x, p) in pool <==>
      p in modified && p in entries && entries[p].coin.IsSpent() == spent && PositionOf(p, entries[p].coin) == x
  }

  ghost predicate ModifiedBy(ours: Entries, batch: Entries, modified: seq<HashPoint>) {
    forall p :: p in modified <==> Inserts(ours, batch, p)
  }

  lemma PoolIsInserted(ours: Entries, batch: Entries, modified: seq<HashPoint>, spent: bool, pool: Pool)
    requires ModifiedBy(ours, batch, modified) && PoolsNew(MergeAll(ours, batch), modified, spent, pool)
    ensures forall p, x :: (x, p) in pool <==> InsertsAt(ours, batch, p, spent, x)
  {
    forall p | p in modified
      ensures p in MergeAll(ours, batch) && MergeAll(ours, batch)[p].coin == batch[p].coin
    {
      assert Inserts(ours, batch, p);
    }
  }

  lemma PooledTwice(ours: Entries, refs: Refs, batch: Entries, modified: seq<HashPoint>,
                    spent: Pool, between: Refs, unspent: Pool, refs': Refs)
    requires ModifiedBy(ours, batch, modified)
    requires PoolsNew(MergeAll(ours, batch), modified, true, spent)
    requires PoolsNew(MergeAll(ours, batch), modified, false, unspent)
    requires PooledInto(refs - DropKeys(ours, batch), spent, between) && PooledInto(between, unspent, refs')
    ensures RefsMerged(ours, refs, batch, refs')
  {
    PoolIsInserted(ours, batch, modified, true, spent);
    PoolIsInserted(ours, batch, modified, false, unspent);
    forall x ensures RefMerged(ours, refs, batch, refs', x) {
      assert PooledAt(refs - DropKeys(ours, batch), spent, between, x);
      assert PooledAt(between, unspent, refs', x);
      if p :| InsertsAt(ours, batch, p, false, x) {
        assert (x, p) in unspent;
      } else if p :| InsertsAt(ours, batch, p, true, x) {
        assert (x, p) in spent;
      }
    }
  }

  lemma DropKeysOn(ours: Entries, batch: Entries, p: HashPoint, e: Entry)
    requires p !in batch
    ensures DropKeys(ours, batch[p := e]) ==
      DropKeys(ours, batch) + if Drops(ours, batch[p := e], p) then {PositionOf(p, ours[p].coin)} else {}
  {
    var more := batch[p := e];
    forall q | q in batch ensures q in more && (Drops(ours, more, q) <==> Drops(ours, batch, q)) {
    }
  }

  lemma ModifiedOn(ours: Entries, batch: Entries, modified: seq<HashPoint>, p: HashPoint, e: Entry)
    requires p !in batch && ModifiedBy(ours, batch, modified)
    ensures ModifiedBy(ours, batch[p := e], if Inserts(ours, batch[p := e], p) then modified + [p] else modified)
  {
  }

  /** One more entry does to the cache what it would do first, at its own outpoint. */
  lemma MergeStep(ours: Entries, batch: Entries, merged: Entries, modified: seq<HashPoint>, p: HashPoint, e: Entry)
    requires p !in batch && Get(merged, p) == Get(ours, p) && ModifiedBy(ours, batch, modified)
    ensures MisappliedAt(merged, map[p := e], p) <==> MisappliedAt(ours, batch[p := e], p)
    ensures DropKeys(ours, batch[p := e]) == DropKeys(ours, batch) + DropKeys(merged, map[p := e])
    ensures ModifiedBy(ours, batch[p := e], if Inserts(merged, map[p := e], p) then modified + [p] else modified)
  {
    DropKeysOn(ours, batch, p, e);
    assert DropKeys(merged, map[p := e]) ==
      if Drops(merged, map[p := e], p) then {PositionOf(p, merged[p].coin)} else {};
    ModifiedOn(ours, batch, modified, p, e);
  }

  /** A merged entry that was there before is not indexed anew: it has to stay. */
  ghost predicate Stays(ours: Entries, batch: Entries, p: HashPoint)
    requires p in ours && Changes(batch, p)
  {
    var x := PositionOf(p, ours[p].coin);
    if batch[p].coin.InMempool() then
      ours[p].coin.InMempool() || exists q :: Inserts(ours, batch, q) && PositionOf(q, batch[q].coin) == x
    else PositionOf(p, batch[p].coin) == x
  }

  ghost predicate AllStay(ours: Entries, batch: Entries) {
    forall p :: p in ours && Changes(batch, p) && p in MergeAll(ours, batch) ==> Stays(ours, batch, p)
  }

  /** The index of a cache is exact after a batch just when no two of its entries
      share a position then, and no entry that it already had was moved. */
  lemma MergedIndexIff(ours: Entries, refs: Refs, batch: Entries, refs': Refs)
    requires Inverse(CoinsOf(ours), refs) && RefsMerged(ours, refs, batch, refs')
    ensures Inverse(CoinsOf(MergeAll(ours, batch)), refs') <==>
      PositionsUnique(CoinsOf(MergeAll(ours, batch))) && AllStay(ours, batch)
  {
    if PositionsUnique(CoinsOf(MergeAll(ours, batch))) && AllStay(ours, batch) {
      MergedIndex(ours, refs, batch, refs');
    }
    if Inverse(CoinsOf(MergeAll(ours, batch)), refs') {
      MergedIndexNeeds(ours, refs, batch, refs');
    }
  }

  lemma MergedIndex(ours: Entries, refs: Refs, batch: Entries, refs': Refs)
    requires Inverse(CoinsOf(ours), refs) && RefsMerged(ours, refs, batch, refs')
    requires PositionsUnique(CoinsOf(MergeAll(ours, batch))) && AllStay(ours, batch)
    ensures Inverse(CoinsOf(MergeAll(ours, batch)), refs')
  {
    var coins := CoinsOf(MergeAll(ours, batch));
    forall p | p in coins && !coins[p].InMempool()
      ensures PositionOf(p, coins[p]) in refs' && refs'[PositionOf(p, coins[p])] == p
    {
      MergedIndexAt(ours, refs, batch, refs', p);
    }
    forall x | x in refs'
      ensures refs'[x] in coins && !coins[refs'[x]].InMempool() && PositionOf(refs'[x], coins[refs'[x]]) == x
    {
      MergedIndexLeads(ours, refs, batch, refs', x);
    }
  }

  lemma MergedIndexAt(ours: Entries, refs: Refs, batch: Entries, refs': Refs, p: HashPoint)
    requires Inverse(CoinsOf(ours), refs) && RefsMerged(ours, refs, batch, refs')
    requires PositionsUnique(CoinsOf(MergeAll(ours, batch))) && AllStay(ours, batch)
    requires p in MergeAll(ours, batch) && !MergeAll(ours, batch)[p].coin.InMempool()
    ensures var x := PositionOf(p, MergeAll(ours, batch)[p].coin); x in refs' && refs'[x] == p
  {
    var merged := MergeAll(ours, batch);
    var x := PositionOf(p, merged[p].coin);
    assert RefMerged(ours, refs, batch, refs', x);
    assert CoinsOf(merged)[p] == merged[p].coin;
    if x in refs' && Inserts(ours, batch, refs'[x]) {
      assert refs'[x] in merged && merged[refs'[x]].coin == batch[refs'[x]].coin;
      assert CoinsOf(merged)[refs'[x]] == batch[refs'[x]].coin;
    }
    if p in ours {
      assert CoinsOf(ours)[p] == ours[p].coin;
      assert Changes(batch, p) ==> Stays(ours, batch, p);
      assert refs[x] == p;
      forall q | q in batch && Drops(ours, batch, q) ensures PositionOf(q, ours[q].coin) != x {
        assert CoinsOf(ours)[q] == ours[q].coin;
      }
    } else {
      assert InsertsAt(ours, batch, p, merged[p].coin.IsSpent(), x);
    }
  }

  lemma MergedIndexLeads(ours: Entries, refs: Refs, batch: Entries, refs': Refs, x: Position)
    requires Inverse(CoinsOf(ours), refs) && RefsMerged(ours, refs, batch, refs')
    requires AllStay(ours, batch) && x in refs'
    ensures var coins := CoinsOf(MergeAll(ours, batch));
      refs'[x] in coins && !coins[refs'[x]].InMempool() && PositionOf(refs'[x], coins[refs'[x]]) == x
  {
    var p := refs'[x];
    assert RefMerged(ours, refs, batch, refs', x);
    if !Inserts(ours, batch, p) {
      assert p in ours && CoinsOf(ours)[p] == ours[p].coin && PositionOf(p, ours[p].coin) == x;
      assert Drops(ours, batch, p) ==> x in DropKeys(ours, batch);
      assert p in MergeAll(ours, batch);
      if Changes(batch, p) {
        assert Stays(ours, batch, p);
        if batch[p].coin.InMempool() {
          var q :| Inserts(ours, batch, q) && PositionOf(q, batch[q].coin) == x;
          assert InsertsAt(ours, batch, q, batch[q].coin.IsSpent(), x);
        }
      }
    }
  }

  lemma MergedIndexNeeds(ours: Entries, refs: Refs, batch: Entries, refs': Refs)
    requires Inverse(CoinsOf(ours), refs) && RefsMerged(ours, refs, batch, refs')
    requires Inverse(CoinsOf(MergeAll(ours, batch)), refs')
    ensures PositionsUnique(CoinsOf(MergeAll(ours, batch))) && AllStay(ours, batch)
  {
    var merged := MergeAll(ours, batch);
    forall p | p in ours && Changes(batch, p) && p in merged ensures Stays(ours, batch, p) {
      assert CoinsOf(ours)[p] == ours[p].coin && CoinsOf(merged)[p] == merged[p].coin == batch[p].coin;
      var y := PositionOf(p, batch[p].coin);
      if !batch[p].coin.InMempool() {
        assert RefMerged(ours, refs, batch, refs', y);
        assert refs'[y] == p && refs[y] == p;
      } else if !ours[p].coin.InMempool() {
        var x := PositionOf(p, ours[p].coin);
        assert RefMerged(ours, refs, batch, refs', x);
        assert refs[x] == p;
        if !exists q :: Inserts(ours, batch, q) && PositionOf(q, batch[q].coin) == x {
          assert forall q, spent :: !InsertsAt(ours, batch, q, spent, x);
          forall q | q in batch && Drops(ours, batch, q) ensures PositionOf(q, ours[q].coin) != x {
            assert CoinsOf(ours)[q] == ours[q].coin;
          }
        }
      }
    }
  }

  lemma PlacedUnique(coins: CoinMap, at: Placement)
    requires Unique(at) && Placed(coins, at)
    ensures PositionsUnique(coins)
  {
    forall p, q | p in coins && !coins[p].InMempool() && q in coins
                  && PositionOf(p, coins[p]) == PositionOf(q, coins[q])
      ensures p == q
    {
      assert at(p) == at(q);
    }
  }

  lemma MergedPlaced(ours: Entries, batch: Entries, at: Placement)
    requires Placed(CoinsOf(ours), at) && Placed(CoinsOf(batch), at)
    ensures Placed(CoinsOf(MergeAll(ours, batch)), at) && AllStay(ours, batch)
  {
    forall p | p in MergeAll(ours, batch)
      ensures PositionOf(p, MergeAll(ours, batch)[p].coin) == at(p)
      ensures p in ours && Changes(batch, p) ==> Stays(ours, batch, p)
    {
      MergedPlacedAt(ours, batch, at, p);
    }
  }

  lemma MergedPlacedAt(ours: Entries, batch: Entries, at: Placement, p: HashPoint)
    requires Placed(CoinsOf(ours), at) && Placed(CoinsOf(batch), at) && p in MergeAll(ours, batch)
    ensures PositionOf(p, MergeAll(ours, batch)[p].coin) == at(p)
    ensures p in ours && Changes(batch, p) ==> Stays(ours, batch, p)
  {
    assert p in ours ==> CoinsOf(ours)[p] == ours[p].coin;
    assert p in batch ==> CoinsOf(batch)[p] == batch[p].coin;
  }

  /** While outpoints keep their positions the condition is always met. */
  lemma MergedIndexPlaced(ours: Entries, refs: Refs, batch: Entries, refs': Refs, at: Placement)
    requires Inverse(CoinsOf(ours), refs) && RefsMerged(ours, refs, batch, refs')
    requires Unique(at) && Placed(CoinsOf(ours), at) && Placed(CoinsOf(batch), at)
    ensures Placed(CoinsOf(MergeAll(ours, batch)), at)
    ensures Inverse(CoinsOf(MergeAll(ours, batch)), refs')
  {
    MergedPlaced(ours, batch, at);
    PlacedUnique(CoinsOf(MergeAll(ours, batch)), at);
    MergedIndex(ours, refs, batch, refs');
  }

  /** A transaction that is mined again elsewhere: the parent still has its spent
      coin, the child brings it back at the new position. The parent then has the
      coin, but no key for it, and the old key leads to it. */
  lemma MovedOutpoint(refs': Refs)
    requires var p, coin := HashPoint(7, 0), Coin(Out(1, 0, false, false), false, false, 20, 1);
      RefsMerged(map[p := Entry(coin.Spend().(height := 10), true, false)], map[Position(10, 1, 0) := p],
                 map[p := Entry(coin, true, true)], refs')
    ensures var p, coin := HashPoint(7, 0), Coin(Out(1, 0, false, false), false, false, 20, 1);
      var ours := map[p := Entry(coin.Spend().(height := 10), true, false)];
      && Inverse(CoinsOf(ours), map[Position(10, 1, 0) := p])
      && MergeAll(ours, map[p := Entry(coin, true, true)]) == map[p := Entry(coin, true, false)]
      && refs' == map[Position(10, 1, 0) := p]
  {
    var p, coin := HashPoint(7, 0), Coin(Out(1, 0, false, false), false, false, 20, 1);
    var ours := map[p := Entry(coin.Spend().(height := 10), true, false)];
    var batch := map[p := Entry(coin, true, true)];
    var refs := map[Position(10, 1, 0) := p];
    forall x ensures (x in refs' <==> x in refs) && (x in refs ==> refs'[x] == refs[x]) {
      assert RefMerged(ours, refs, batch, refs', x);
    }
    assert refs' == refs;
    assert MergeAll(ours, batch) == map[p := Entry(coin, true, false)];
  }

  /** The same transaction in the database: its entry comes dirty and unspent, so the key
      of the old position is not erased and leads to the coin at its new one. */
  lemma MovedInDatabase(refs': Refs)
    requires var p, coin := HashPoint(7, 0), Coin(Out(1, 0, false, false), false, false, 20, 1);
      RefsWritten(map[Position(10, 1, 0) := p], map[p := Entry(coin, true, false)], refs')
    ensures var p, coin := HashPoint(7, 0), Coin(Out(1, 0, false, false), false, false, 20, 1);
      var stored, batch := map[p := coin.(height := 10)], map[p := Entry(coin, true, false)];
      && Inverse(stored, OnChain(map[Position(10, 1, 0) := p]))
      && StoreAll(stored, batch) == map[p := coin]
      && Position(10, 1, 0) in refs' && refs'[Position(10, 1, 0)] == p
      && Position(20, 1, 0) in refs' && refs'[Position(20, 1, 0)] == p
      && !Inverse(StoreAll(stored, batch), OnChain(refs'))
  {
    var p, coin := HashPoint(7, 0), Coin(Out(1, 0, false, false), false, false, 20, 1);
    var stored, batch := map[p := coin.(height := 10)], map[p := Entry(coin, true, false)];
    var refs, x, y := map[Position(10, 1, 0) := p], Position(10, 1, 0), Position(20, 1, 0);
    assert OnChain(refs) == refs;
    assert StoreAll(stored, batch) == map[p := coin];
    assert RefWritten(refs, batch, refs', x) && RefWritten(refs, batch, refs', y);
    assert Writes(batch, p, y);
    assert x in OnChain(refs');
  }
}

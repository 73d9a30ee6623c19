/** The layered view of unspent coins as a value: a database at the bottom and
    any number of write-back caches on top of it. `Visible` is the one plain map
    of unspent coins that a view stands for; the lemmas say that every operation
    on the layers does to that map what a plain map operation would do. */
module CoinsModel {
  import opened Wrappers

  /** A transaction output named by its transaction hash. */
  datatype HashPoint = HashPoint(hash: nat, n: nat)

  /** A transaction output named by the place of its transaction in the chain. */
  datatype Position = Position(height: nat, txIndex: nat, n: nat)

  datatype OutPoint = ByHash(point: HashPoint) | ByIndex(position: Position)

  datatype TxOut = NullOut | Out(value: int, script: nat, isWitness: bool, isUnspendable: bool)

  datatype Coin = Coin(out: TxOut, coinBase: bool, segSig: bool, height: nat, txIndex: nat) {
    predicate IsSpent() {
      out.NullOut?
    }

    /** Spending nulls the output and keeps the position. */
    function Spend(): Coin {
      this.(out := NullOut)
    }

    predicate InMempool() {
      height == MEMPOOL_HEIGHT && txIndex == MEMPOOL_INDEX
    }
  }

  const MEMPOOL_HEIGHT: nat := 1073741823
  const MEMPOOL_INDEX: nat := 4294967295

  const EMPTY_COIN := Coin(NullOut, false, false, 0, 0)

  datatype Entry = Entry(coin: Coin, isDirty: bool, isFresh: bool)

  type Entries = map<HashPoint, Entry>
  type CoinMap = map<HashPoint, Coin>

  datatype View = Db(stored: CoinMap) | Cache(entries: Entries, base: View)

  // ----- what a view shows

  /** The answer of GetCoin: a cached coin may be a spent one. */
  function Lookup(v: View, p: HashPoint): Option<Coin> {
    match v
    case Db(stored) => if p in stored then Some(stored[p]) else None
    case Cache(entries, base) => if p in entries then Some(entries[p].coin) else Lookup(base, p)
  }

  /** The unspent coins a view stands for, built as GetAllCoins builds them. */
  function Visible(v: View): CoinMap {
    match v
    case Db(stored) => stored
    case Cache(entries, base) => Overlay(Visible(base), entries)
  }

  function Overlay(below: CoinMap, entries: Entries): CoinMap {
    map p | p in below.Keys + entries.Keys && (p in entries ==> !entries[p].coin.IsSpent()) ::
      if p in entries then entries[p].coin else below[p]
  }

  /** The maps shown by every level, topmost first. */
  function Levels(v: View): seq<CoinMap> {
    [Visible(v)] + if v.Cache? then Levels(v.base) else []
  }

  // ----- the operations

  /** FetchCoin: every cache above the first one that has the entry takes a copy. */
  function Fetch(v: View, p: HashPoint): View {
    match v
    case Db(_) => v
    case Cache(entries, base) =>
      if p in entries then v else
      match Lookup(base, p)
      case None => Cache(entries, Fetch(base, p))
      case Some(c) => Cache(entries[p := Entry(c, false, c.IsSpent())], Fetch(base, p))
  }

  function EntryOrEmpty(entries: Entries, p: HashPoint): Entry {
    if p in entries then entries[p] else Entry(EMPTY_COIN, false, false)
  }

  /** The guard of "Adding new coin that replaces non-pruned entry". */
  predicate AddThrows(v: View, p: HashPoint, c: Coin, overwrite: bool)
    requires v.Cache?
  {
    !c.out.NullOut? && !c.out.isUnspendable && !overwrite && !EntryOrEmpty(v.entries, p).coin.IsSpent()
  }

  function Add(v: View, p: HashPoint, c: Coin, overwrite: bool): View
    requires v.Cache? && !c.IsSpent()
  {
    if c.out.isUnspendable then v else
    var e := EntryOrEmpty(v.entries, p);
    v.(entries := v.entries[p := Entry(c, true, e.isFresh || (!overwrite && !e.isDirty))])
  }

  function Spend(v: View, p: HashPoint, keepFresh: bool): View
    requires v.Cache?
  {
    var f := Fetch(v, p);
    if p !in f.entries then f else
    var e := f.entries[p];
    if !keepFresh && e.isFresh then f.(entries := f.entries - {p})
    else f.(entries := f.entries[p := Entry(e.coin.Spend(), true, e.isFresh)])
  }

  function Uncache(v: View, p: HashPoint): View
    requires v.Cache?
  {
    if p in v.entries && !v.entries[p].isDirty && !v.entries[p].isFresh
    then v.(entries := v.entries - {p})
    else v
  }

  /** The guard of "FRESH flag misapplied to cache entry for base transaction". */
  predicate MisappliedAt(ours: Entries, batch: Entries, p: HashPoint) {
    p in batch && p in ours && batch[p].isDirty && batch[p].isFresh && !ours[p].coin.IsSpent()
  }

  ghost predicate Misapplied(ours: Entries, batch: Entries) {
    exists p :: MisappliedAt(ours, batch, p)
  }

  /** What one dirty entry of a child does to the entry of its parent cache. */
  function MergeEntry(ours: Option<Entry>, theirs: Entry): Option<Entry> {
    match ours
    case None =>
      if theirs.isFresh && theirs.coin.IsSpent() then None
      else Some(Entry(theirs.coin, true, theirs.isFresh))
    case Some(e) =>
      if e.isFresh && theirs.coin.IsSpent() then None
      else Some(Entry(theirs.coin, true, e.isFresh))
  }

  function Get(entries: Entries, p: HashPoint): Option<Entry> {
    if p in entries then Some(entries[p]) else None
  }

  function Merged(ours: Entries, batch: Entries, p: HashPoint): Option<Entry> {
    if p in batch && batch[p].isDirty then MergeEntry(Get(ours, p), batch[p]) else Get(ours, p)
  }

  function MergeAll(ours: Entries, batch: Entries): Entries {
    map p | p in ours.Keys + batch.Keys && Merged(ours, batch, p).Some? :: Merged(ours, batch, p).value
  }

  function StoreAll(stored: CoinMap, batch: Entries): CoinMap {
    map p |
      && p in stored.Keys + batch.Keys
      && (if p in batch && batch[p].isDirty then !batch[p].coin.IsSpent() else p in stored) ::
      if p in batch && batch[p].isDirty then batch[p].coin else stored[p]
  }

  function BatchWrite(v: View, batch: Entries): View {
    match v
    case Db(stored) => Db(StoreAll(stored, batch))
    case Cache(entries, base) => Cache(MergeAll(entries, batch), base)
  }

  function Flush(v: View): View
    requires v.Cache?
  {
    Cache(map[], BatchWrite(v.base, v.entries))
  }

  // ----- coherence of the layers

  ghost predicate EntryOk(p: HashPoint, e: Entry, below: CoinMap) {
    && (e.isFresh ==> p !in below)
    && (!e.isDirty ==> if e.coin.IsSpent() then p !in below else p in below && below[p] == e.coin)
  }

  /** FRESH means the base shows no unspent coin, and a clean entry agrees with
      the base. Nothing is said about positions: a coin may come back elsewhere. */
  ghost predicate Coherent(v: View) {
    match v
    case Db(stored) => forall p :: p in stored ==> !stored[p].IsSpent()
    case Cache(entries, base) =>
      Coherent(base) && forall p :: p in entries ==> EntryOk(p, entries[p], Visible(base))
  }

  // ----- lemmas about one operation

  lemma OverlayPut(below: CoinMap, entries: Entries, p: HashPoint, e: Entry)
    ensures Overlay(below, entries[p := e]) ==
      if e.coin.IsSpent() then Overlay(below, entries) - {p} else Overlay(below, entries)[p := e.coin]
  {
    assert Overlay(below, entries[p := e]) ==
      if e.coin.IsSpent() then Overlay(below, entries) - {p} else Overlay(below, entries)[p := e.coin];
  }

  lemma OverlayDrop(below: CoinMap, entries: Entries, p: HashPoint)
    ensures Overlay(below, entries - {p}) ==
      if p in below then Overlay(below, entries)[p := below[p]] else Overlay(below, entries) - {p}
  {
    assert Overlay(below, entries - {p}) ==
      if p in below then Overlay(below, entries)[p := below[p]] else Overlay(below, entries) - {p};
  }

  lemma {:induction false} VisibleUnspent(v: View, p: HashPoint)
    requires Coherent(v) && p in Visible(v)
    ensures !Visible(v)[p].IsSpent()
  {
    if v.Cache? && p !in v.entries {
      VisibleUnspent(v.base, p);
    }
  }

  /** GetCoin and HaveCoin answer as the plain map would: an unspent answer is
      the coin of the map, and no answer or a spent one means the map has none. */
  lemma {:induction false} LookupIsVisible(v: View, p: HashPoint)
    requires Coherent(v)
    ensures Lookup(v, p).Some? && !Lookup(v, p).value.IsSpent()
      <==> p in Visible(v)
    ensures p in Visible(v) ==> Lookup(v, p) == Some(Visible(v)[p])
  {
    if v.Cache? && p !in v.entries {
      LookupIsVisible(v.base, p);
    }
  }

  lemma {:induction false} FetchKeeps(v: View, p: HashPoint)
    requires Coherent(v)
    ensures Coherent(Fetch(v, p))
    ensures Levels(Fetch(v, p)) == Levels(v)
    ensures Lookup(Fetch(v, p), p) == Lookup(v, p)
    ensures v.Cache? ==> Fetch(v, p).Cache? && (p in Fetch(v, p).entries <==> Lookup(v, p).Some?)
    ensures v.Cache? && p in Fetch(v, p).entries ==> Fetch(v, p).entries[p].coin == Lookup(v, p).value
  {
    if v.Cache? && p !in v.entries {
      FetchKeeps(v.base, p);
      LookupIsVisible(v.base, p);
      assert Levels(Fetch(v.base, p))[0] == Levels(v.base)[0];
      assert Visible(Fetch(v.base, p)) == Visible(v.base);
      match Lookup(v.base, p)
      case None =>
      case Some(c) =>
        OverlayPut(Visible(v.base), v.entries, p, Entry(c, false, c.IsSpent()));
        assert Visible(Fetch(v, p)) == Visible(v);
    }
  }

  /** Adding a coin is safe exactly when the documented demand is met: without
      `overwrite` no unspent coin may be visible. Then the map gains that coin. */
  lemma AddKeeps(v: View, p: HashPoint, c: Coin, overwrite: bool)
    requires v.Cache? && Coherent(v) && !c.IsSpent()
    ensures !AddThrows(v, p, c, overwrite) && Coherent(Add(v, p, c, overwrite))
      <==> c.out.isUnspendable || overwrite || p !in Visible(v)
    ensures Visible(Add(v, p, c, overwrite)) == if c.out.isUnspendable then Visible(v) else Visible(v)[p := c]
  {
    var e := EntryOrEmpty(v.entries, p);
    var e' := Entry(c, true, e.isFresh || (!overwrite && !e.isDirty));
    OverlayPut(Visible(v.base), v.entries, p, e');
    if !c.out.isUnspendable && !overwrite && p in Visible(v) && p !in v.entries {
      assert !EntryOk(p, Add(v, p, c, overwrite).entries[p], Visible(v.base));
    }
  }

  /** The entry of an added coin is dirty; it is fresh if it was, or if overwriting is not allowed
      and there was nothing dirty. No other entry changes. */
  lemma AddLeaves(v: View, p: HashPoint, c: Coin, overwrite: bool)
    requires v.Cache? && !c.IsSpent() && !c.out.isUnspendable
    ensures var w := Add(v, p, c, overwrite);
      && w.base == v.base && (forall q :: q != p ==> Get(w.entries, q) == Get(v.entries, q))
      && p in w.entries && w.entries[p].coin == c && w.entries[p].isDirty
      && (w.entries[p].isFresh <==>
            || (p in v.entries && v.entries[p].isFresh)
            || (!overwrite && (p in v.entries ==> !v.entries[p].isDirty)))
  {
  }

  /** Where the demand is not met: a coin unknown to the cache is added over the
      unspent one below. Nothing is thrown, the entry counts as fresh, and spending
      it brings the coin below back. */
  lemma AddBreaks(p: HashPoint, below: Coin, c: Coin)
    requires !below.IsSpent() && !c.IsSpent() && !c.out.isUnspendable
    ensures var v := Cache(map[], Db(map[p := below]));
      && Coherent(v)
      && !AddThrows(v, p, c, false)
      && !Coherent(Add(v, p, c, false))
      && Visible(Spend(Add(v, p, c, false), p, false)) == map[p := below]
  {
    var v := Cache(map[], Db(map[p := below]));
    var w := Add(v, p, c, false);
    assert !EntryOk(p, w.entries[p], Visible(v.base));
    assert Spend(w, p, false) == w.(entries := w.entries - {p});
    assert w.entries - {p} == map[];
    assert Overlay(map[p := below], map[]) == map[p := below];
  }

  lemma SpendKeeps(v: View, p: HashPoint, keepFresh: bool)
    requires v.Cache? && Coherent(v)
    ensures Coherent(Spend(v, p, keepFresh))
    ensures Visible(Spend(v, p, keepFresh)) == Visible(v) - {p}
    ensures Levels(Spend(v, p, keepFresh).base) == Levels(v.base)
  {
    FetchKeeps(v, p);
    var f := Fetch(v, p);
    assert Levels(f)[0] == Levels(v)[0] && Levels(f)[1..] == Levels(v)[1..];
    assert Levels(f.base) == Levels(f)[1..] && Levels(v.base) == Levels(v)[1..];
    LookupIsVisible(v, p);
    assert Visible(f) == Visible(v);
    if p in f.entries {
      OverlayDrop(Visible(f.base), f.entries, p);
      OverlayPut(Visible(f.base), f.entries, p, Entry(f.entries[p].coin.Spend(), true, f.entries[p].isFresh));
    } else {
      assert Visible(v) - {p} == Visible(v);
    }
  }

  /** What a spend leaves of the entries: the others, and one for the coin that is spent
      and dirty, unless that may be deleted. With fresh entries kept a lookup still finds
      the coin, as a spent one; otherwise it is gone just when the entry was fresh. */
  lemma SpendLeaves(v: View, p: HashPoint, keepFresh: bool)
    requires v.Cache? && Coherent(v)
    ensures var w, found := Spend(v, p, keepFresh), Lookup(v, p);
      && (forall q :: q != p ==> Get(w.entries, q) == Get(v.entries, q))
      && (p in w.entries <==> found.Some? && (keepFresh || !Fetch(v, p).entries[p].isFresh))
      && (p in w.entries ==> w.entries[p].isDirty && w.entries[p].coin == found.value.(out := NullOut))
      && (keepFresh ==> Lookup(w, p) == if found.Some? then Some(found.value.(out := NullOut)) else None)
  {
    FetchKeeps(v, p);
    FetchCopies(v, p);
  }

  /** A fetched entry is a clean copy; one of a spent coin counts as fresh. Other entries
      are left as they were. */
  lemma {:induction false} FetchCopies(v: View, p: HashPoint)
    requires v.Cache?
    ensures var w := Fetch(v, p);
      && w.Cache?
      && (forall q :: q != p ==> Get(w.entries, q) == Get(v.entries, q))
      && (Lookup(v, p).None? ==> p !in w.entries && Lookup(w, p).None?)
      && (p in v.entries ==> Get(w.entries, p) == Some(v.entries[p]))
      && (p !in v.entries && Lookup(v, p).Some? ==>
            Get(w.entries, p) == Some(Entry(Lookup(v, p).value, false, Lookup(v, p).value.IsSpent())))
  {
    if p !in v.entries && Lookup(v.base, p).None? && v.base.Cache? {
      FetchCopies(v.base, p);
    }
  }

  /** A coin that is added and spent again in one cache leaves no trace in it. */
  lemma AddSpendIsNothing(v: View, p: HashPoint, c: Coin)
    requires v.Cache? && p !in v.entries && !c.IsSpent()
    ensures !c.out.isUnspendable ==> Spend(Add(v, p, c, false), p, false) == v
  {
    assert v.entries[p := Entry(c, true, true)] - {p} == v.entries;
  }

  /** Nor does one that is added in a child, flushed and spent in the parent. */
  lemma AddFlushSpendIsNothing(v: View, p: HashPoint, c: Coin)
    requires v.Cache? && p !in v.entries && !c.IsSpent() && !c.out.isUnspendable
    ensures var w := Flush(Add(Cache(map[], v), p, c, false)).base;
      w.Cache? && Spend(w, p, false) == v
  {
    var batch := map[p := Entry(c, true, true)];
    assert Add(Cache(map[], v), p, c, false).entries == batch;
    assert MergeAll(v.entries, batch) == v.entries[p := Entry(c, true, true)];
    assert v.entries[p := Entry(c, true, true)] - {p} == v.entries;
  }

  /** A clean entry is gone, and every other one is left as it was. */
  lemma UncacheDrops(v: View, p: HashPoint)
    requires v.Cache?
    ensures var w := Uncache(v, p);
      && w.Cache? && w.base == v.base
      && (forall q :: q != p ==> Get(w.entries, q) == Get(v.entries, q))
      && (p in w.entries <==> p in v.entries && (v.entries[p].isDirty || v.entries[p].isFresh))
      && (p in w.entries ==> w.entries[p] == v.entries[p])
  {
  }

  lemma UncacheKeeps(v: View, p: HashPoint)
    requires v.Cache? && Coherent(v)
    ensures Coherent(Uncache(v, p))
    ensures Visible(Uncache(v, p)) == Visible(v)
  {
    assert Visible(Uncache(v, p)) == Visible(v);
  }

  /** The logic error of BatchWrite cannot be reached from coherent layers. */
  lemma NeverMisapplied(v: View)
    requires v.Cache? && v.base.Cache? && Coherent(v)
    ensures !Misapplied(v.base.entries, v.entries)
  {
    forall p ensures !MisappliedAt(v.base.entries, v.entries, p) {
      if p in v.entries && p in v.base.entries && v.entries[p].isFresh {
        assert p !in Visible(v.base);
      }
    }
  }

  lemma FlushKeeps(v: View)
    requires v.Cache? && Coherent(v)
    ensures Coherent(Flush(v))
    ensures Visible(Flush(v).base) == Visible(v)
    ensures Visible(Flush(v)) == Visible(v)
    ensures v.base.Cache? ==> Flush(v).base.Cache? && Flush(v).base.base == v.base.base
    ensures v.base.Db? ==> Flush(v).base.Db?
  {
    var b := Flush(v).base;
    forall p
      ensures p in Visible(b) <==> p in Visible(v)
      ensures p in Visible(b) ==> Visible(b)[p] == Visible(v)[p]
    {
      FlushAtPoint(v, p);
    }
    assert Visible(b) == Visible(v);
    assert Visible(Flush(v)) == Visible(b);
    if v.base.Cache? {
      forall p | p in b.entries ensures EntryOk(p, b.entries[p], Visible(b.base)) {
        FlushAtPoint(v, p);
      }
    }
  }

  /** What a batch leaves of an entry: a dirty one replaces ours and is dirty; it is as fresh as
      ours was, or as it was itself where there was none. It goes when it is spent and that is
      fresh. Everything else stays. */
  lemma MergedEntry(ours: Entries, batch: Entries, p: HashPoint)
    ensures var m := Get(MergeAll(ours, batch), p);
      if p !in batch || !batch[p].isDirty then m == Get(ours, p)
      else
        var isFresh := if p in ours then ours[p].isFresh else batch[p].isFresh;
        if batch[p].coin.IsSpent() && isFresh then m == None
        else m.Some? && m.value.coin == batch[p].coin && m.value.isDirty && m.value.isFresh == isFresh
  {
  }

  lemma FlushAtPoint(v: View, p: HashPoint)
    requires v.Cache? && Coherent(v)
    ensures var b := BatchWrite(v.base, v.entries);
      && (p in Visible(b) <==> p in Visible(v))
      && (p in Visible(b) ==> Visible(b)[p] == Visible(v)[p])
      && (b.Cache? && p in b.entries ==> EntryOk(p, b.entries[p], Visible(b.base)))
  {
    if p in v.entries {
      assert EntryOk(p, v.entries[p], Visible(v.base));
    }
    if v.base.Cache? && p in v.base.entries {
      assert EntryOk(p, v.base.entries[p], Visible(v.base.base));
    }
  }

  // ----- runs over a stack of any depth

  /** Operations of a run. `level` counts caches from the top; reading, uncaching
      and flushing may happen on any of them, changes only on the topmost. */
  datatype Op =
    | OpAdd(p: HashPoint, c: Coin, overwrite: bool)
    | OpSpend(p: HashPoint, keepFresh: bool)
    | OpFetch(level: nat, p: HashPoint)
    | OpUncache(level: nat, p: HashPoint)
    | OpFlush(level: nat)
    | OpPush
    | OpPop

  function Depth(v: View): nat {
    if v.Cache? then 1 + Depth(v.base) else 0
  }

  function AtLevel(v: View, level: nat, op: Op): View
    requires level < Depth(v)
  {
    if level > 0 then v.(base := AtLevel(v.base, level - 1, op))
    else match op
      case OpFetch(_, p) => Fetch(v, p)
      case OpUncache(_, p) => Uncache(v, p)
      case OpFlush(_) => Flush(v)
      case _ => v
  }

  ghost predicate Legal(maps: seq<CoinMap>, op: Op) {
    && |maps| >= 1
    && match op
       case OpAdd(p, c, overwrite) =>
         |maps| >= 2 && !c.IsSpent() && (c.out.isUnspendable || overwrite || p !in maps[0])
       case OpSpend(_, _) => |maps| >= 2
       case OpFetch(level, _) => level + 1 < |maps|
       case OpUncache(level, _) => level + 1 < |maps|
       case OpFlush(level) => level + 1 < |maps|
       case OpPush => true
       case OpPop => |maps| >= 2
  }

  function Step(v: View, op: Op): View
    requires match op
      case OpAdd(_, c, _) => v.Cache? && !c.IsSpent()
      case OpSpend(_, _) => v.Cache?
      case OpFetch(level, _) => level < Depth(v)
      case OpUncache(level, _) => level < Depth(v)
      case OpFlush(level) => level < Depth(v)
      case OpPush => true
      case OpPop => v.Cache?
  {
    match op
    case OpAdd(p, c, overwrite) => Add(v, p, c, overwrite)
    case OpSpend(p, keepFresh) => Spend(v, p, keepFresh)
    case OpFetch(level, _) => AtLevel(v, level, op)
    case OpUncache(level, _) => AtLevel(v, level, op)
    case OpFlush(level) => AtLevel(v, level, op)
    case OpPush => Cache(map[], v)
    case OpPop => v.base
  }

  /** The same operation on plain maps, one per level. */
  function PlainStep(maps: seq<CoinMap>, op: Op): seq<CoinMap>
    requires |maps| >= 1
  {
    match op
    case OpAdd(p, c, _) => if c.out.NullOut? || c.out.isUnspendable then maps else maps[0 := maps[0][p := c]]
    case OpSpend(p, _) => maps[0 := maps[0] - {p}]
    case OpFlush(level) => if level + 1 < |maps| then maps[level + 1 := maps[level]] else maps
    case OpPush => [maps[0]] + maps
    case OpPop => if |maps| >= 2 then maps[1..] else maps
    case _ => maps
  }

  lemma {:induction false} LevelsLength(v: View)
    ensures |Levels(v)| == Depth(v) + 1
  {
    if v.Cache? {
      LevelsLength(v.base);
    }
  }

  /** A change below that shows the same map just below changes nothing above. */
  lemma BaseReplaced(v: View, base': View)
    requires v.Cache? && Coherent(v) && Coherent(base') && Visible(base') == Visible(v.base)
    ensures Coherent(v.(base := base')) && Visible(v.(base := base')) == Visible(v)
    ensures Levels(v.(base := base')) == [Visible(v)] + Levels(base')
  {
  }

  /** What a list of maps becomes when the cache at `level` is flushed. */
  function LevelsAfter(maps: seq<CoinMap>, level: nat, op: Op): seq<CoinMap>
    requires level + 1 < |maps|
  {
    if op.OpFlush? then maps[level + 1 := maps[level]] else maps
  }

  lemma LevelsAfterUnder(top: CoinMap, maps: seq<CoinMap>, level: nat, op: Op)
    requires level + 1 < |maps|
    ensures LevelsAfter([top] + maps, level + 1, op) == [top] + LevelsAfter(maps, level, op)
    ensures LevelsAfter(maps, level, op)[0] == maps[0]
  {
  }

  lemma AtTopKeeps(v: View, op: Op)
    requires v.Cache? && Coherent(v) && |Levels(v)| >= 2
    requires op.OpFetch? || op.OpUncache? || op.OpFlush?
    ensures Coherent(AtLevel(v, 0, op))
    ensures Levels(AtLevel(v, 0, op)) == LevelsAfter(Levels(v), 0, op)
  {
    match op
    case OpFetch(_, p) => FetchKeeps(v, p);
    case OpUncache(_, p) => UncacheKeeps(v, p);
    case OpFlush(_) =>
      FlushKeeps(v);
      var w := Flush(v);
      assert Levels(w) == [Visible(w)] + Levels(w.base);
  }

  lemma {:induction false} AtLevelKeeps(v: View, level: nat, op: Op)
    requires Coherent(v) && level < Depth(v)
    requires op.OpFetch? || op.OpUncache? || op.OpFlush?
    ensures Coherent(AtLevel(v, level, op))
    ensures |Levels(v)| == Depth(v) + 1
    ensures Levels(AtLevel(v, level, op)) == LevelsAfter(Levels(v), level, op)
  {
    LevelsLength(v);
    if level == 0 {
      AtTopKeeps(v, op);
    } else {
      AtLevelKeeps(v.base, level - 1, op);
      LevelsAfterUnder(Visible(v), Levels(v.base), level - 1, op);
      var below := AtLevel(v.base, level - 1, op);
      assert Visible(below) == Levels(below)[0];
      assert Visible(v.base) == Levels(v.base)[0];
      BaseReplaced(v, below);
    }
  }

  lemma TopChanged(v: View, w: View)
    requires v.Cache? && w.Cache? && Levels(w.base) == Levels(v.base)
    ensures Levels(w) == Levels(v)[0 := Visible(w)]
  {
  }

  lemma TopRefines(v: View, op: Op)
    requires Coherent(v) && v.Cache? && (op.OpAdd? || op.OpSpend?) && Legal(Levels(v), op)
    ensures op.OpAdd? ==> !AddThrows(v, op.p, op.c, op.overwrite)
    ensures Coherent(Step(v, op))
    ensures Levels(Step(v, op)) == PlainStep(Levels(v), op)
  {
    if op.OpAdd? {
      AddKeeps(v, op.p, op.c, op.overwrite);
    } else {
      SpendKeeps(v, op.p, op.keepFresh);
    }
    TopChanged(v, Step(v, op));
  }

  lemma StepRefines(v: View, op: Op)
    requires Coherent(v) && Legal(Levels(v), op)
    ensures |Levels(v)| == Depth(v) + 1
    ensures op.OpAdd? ==> !AddThrows(v, op.p, op.c, op.overwrite)
    ensures Coherent(Step(v, op))
    ensures Levels(Step(v, op)) == PlainStep(Levels(v), op)
  {
    LevelsLength(v);
    match op
    case OpAdd(_, _, _) => TopRefines(v, op);
    case OpSpend(_, _) => TopRefines(v, op);
    case OpFetch(level, _) => AtLevelKeeps(v, level, op);
    case OpUncache(level, _) => AtLevelKeeps(v, level, op);
    case OpFlush(level) => AtLevelKeeps(v, level, op);
    case OpPush => assert Visible(Cache(map[], v)) == Visible(v);
    case OpPop =>
  }

  ghost predicate LegalRun(maps: seq<CoinMap>, ops: seq<Op>)
    decreases |ops|
  {
    ops == [] || (Legal(maps, ops[0]) && LegalRun(PlainStep(maps, ops[0]), ops[1..]))
  }

  function PlainRun(maps: seq<CoinMap>, ops: seq<Op>): seq<CoinMap>
    requires |maps| >= 1
    decreases |ops|
  {
    if ops == [] then maps else
    var next := PlainStep(maps, ops[0]);
    if next == [] then next else PlainRun(next, ops[1..])
  }

  ghost function Run(v: View, ops: seq<Op>): View
    requires Coherent(v) && LegalRun(Levels(v), ops)
    decreases |ops|
  {
    if ops == [] then v else
    StepRefines(v, ops[0]);
    Run(Step(v, ops[0]), ops[1..])
  }

  /** Any run that is legal for plain maps keeps the layers coherent, and every
      level then shows exactly the map that the plain run ends in. */
  lemma {:induction false} RunRefines(v: View, ops: seq<Op>)
    requires Coherent(v) && LegalRun(Levels(v), ops)
    ensures Coherent(Run(v, ops))
    ensures Levels(Run(v, ops)) == PlainRun(Levels(v), ops)
    decreases |ops|
  {
    if ops != [] {
      StepRefines(v, ops[0]);
      RunRefines(Step(v, ops[0]), ops[1..]);
    }
  }
}

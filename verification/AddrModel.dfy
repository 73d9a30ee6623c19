/** The address manager as a value: two maps, a randomly ordered vector, the "new"
    and "tried" tables, reference counts and counters. A table is the map of its
    occupied slots. `Consistent` is the manager's own consistency check. */
module AddrModel {
  import opened Wrappers

  const TRIED_BUCKET_COUNT: int := 256
  const NEW_BUCKET_COUNT: int := 1024
  const BUCKET_SIZE: int := 64
  const NEW_BUCKETS_PER_ADDRESS: int := 8
  const HORIZON_DAYS: int := 30
  const RETRIES: int := 3
  const MAX_FAILURES: int := 10
  const MIN_FAIL_DAYS: int := 7
  const MINUTE: int := 60
  const HOUR: int := 3600
  const DAY: int := 86400
  const TWO_32: int := 0x1_0000_0000

  type NetAddr = nat

  /** The network address alone identifies an entry; the port does not. */
  datatype Address = Address(net: NetAddr, port: nat, time: int, services: set<nat>, routable: bool)

  datatype Info = Info(
    address: Address,
    source: NetAddr,
    lastTry: int,
    lastCountAttempt: int,
    lastSuccess: int,
    attempts: int,
    refCount: int,
    inTried: bool,
    randomPos: int)

  datatype Slot = Slot(bucket: int, pos: int)

  /** The keyed hashes behind bucket selection, for one secret key. They see the
      network address and the port only. */
  datatype Hashing = Hashing(
    triedHash: (NetAddr, nat) -> nat,
    newHash: (NetAddr, nat, NetAddr) -> nat,
    positionHash: (bool, int, NetAddr, nat) -> nat)
  {
    function TriedBucket(a: Address): int {
      triedHash(a.net, a.port) % TRIED_BUCKET_COUNT
    }

    function NewBucket(a: Address, source: NetAddr): int {
      newHash(a.net, a.port, source) % NEW_BUCKET_COUNT
    }

    function Position(isNew: bool, bucket: int, a: Address): int {
      positionHash(isNew, bucket, a.net, a.port) % BUCKET_SIZE
    }

    function NewSlot(bucket: int, a: Address): Slot {
      Slot(bucket, Position(true, bucket, a))
    }

    function TriedSlot(a: Address): Slot {
      Slot(TriedBucket(a), Position(false, TriedBucket(a), a))
    }
  }

  type Table = map<Slot, int>

  datatype Book = Book(
    idCount: nat,
    info: map<int, Info>,
    addr: map<NetAddr, int>,
    random: seq<int>,
    nTried: int,
    triedTable: Table,
    nNew: int,
    newTable: Table,
    lastGood: int)

  const EMPTY_BOOK := Book(0, map[], map[], [], 0, map[], 0, map[], 1)

  // ----- the consistency check

  function SlotsOf(t: Table, id: int): set<Slot> {
    set s | s in t && t[s] == id
  }

  function Tried(info: map<int, Info>): set<int> {
    set id | id in info && info[id].inTried
  }

  function Untried(info: map<int, Info>): set<int> {
    set id | id in info && !info[id].inTried
  }

  /** The two maps and the random vector describe the same entries. */
  ghost predicate Linked(b: Book) {
    && (forall id {:trigger EntryLinked(b, id)} :: id in b.info ==> EntryLinked(b, id))
    && (forall a {:trigger AddrLinked(b, a)} :: a in b.addr ==> AddrLinked(b, a))
    && (forall i {:trigger RandomLinked(b, i)} :: 0 <= i < |b.random| ==> RandomLinked(b, i))
  }

  ghost predicate AddrLinked(b: Book, a: NetAddr)
    requires a in b.addr
  {
    b.addr[a] in b.info && b.info[b.addr[a]].address.net == a
  }

  ghost predicate RandomLinked(b: Book, i: int)
    requires 0 <= i < |b.random|
  {
    b.random[i] in b.info && b.info[b.random[i]].randomPos == i
  }

  ghost predicate EntryLinked(b: Book, id: int)
    requires id in b.info
  {
    var e := b.info[id];
    && 0 <= id < b.idCount
    && e.address.net in b.addr && b.addr[e.address.net] == id
    && 0 <= e.randomPos < |b.random| && b.random[e.randomPos] == id
  }

  /** Every occupied slot belongs to the entry in it, each tried entry is in its
      own slot, and a reference count is the number of new slots of the entry. */
  ghost predicate Tabled(b: Book, h: Hashing) {
    && (forall s {:trigger NewSlotOk(b, h, s)} :: s in b.newTable ==> NewSlotOk(b, h, s))
    && (forall s {:trigger TriedSlotOk(b, h, s)} :: s in b.triedTable ==> TriedSlotOk(b, h, s))
    && (forall id {:trigger EntryTabled(b, h, id)} :: id in b.info ==> EntryTabled(b, h, id))
  }

  ghost predicate NewSlotOk(b: Book, h: Hashing, s: Slot)
    requires s in b.newTable
  {
    var id := b.newTable[s];
    id in b.info && !b.info[id].inTried && 0 <= s.bucket < NEW_BUCKET_COUNT
      && s == h.NewSlot(s.bucket, b.info[id].address)
  }

  ghost predicate TriedSlotOk(b: Book, h: Hashing, s: Slot)
    requires s in b.triedTable
  {
    var id := b.triedTable[s];
    id in b.info && b.info[id].inTried && s == h.TriedSlot(b.info[id].address)
  }

  ghost predicate EntryTabled(b: Book, h: Hashing, id: int)
    requires id in b.info
  {
    var e := b.info[id];
    && e.refCount == |SlotsOf(b.newTable, id)| <= NEW_BUCKETS_PER_ADDRESS
    && (e.inTried ==> h.TriedSlot(e.address) in b.triedTable && b.triedTable[h.TriedSlot(e.address)] == id)
    && e.lastTry >= 0 && e.lastSuccess >= 0 && (e.inTried ==> e.lastSuccess != 0)
  }

  ghost predicate Core(b: Book, h: Hashing) {
    Linked(b) && Tabled(b, h)
  }

  /** Every untried entry outside `limbo` is referenced from the new table. */
  ghost predicate Referenced(b: Book, limbo: set<int>) {
    forall id :: id in b.info && !b.info[id].inTried && id !in limbo ==> b.info[id].refCount >= 1
  }

  ghost function NewDrift(b: Book): int {
    b.nNew - |Untried(b.info)|
  }

  ghost function TriedDrift(b: Book): int {
    b.nTried - |Tried(b.info)|
  }

  /** How far the counters are off: new entries, tried entries, random vector. */
  ghost function Drift(b: Book): (int, int, int) {
    (NewDrift(b), TriedDrift(b), |b.random| - b.nNew - b.nTried)
  }

  ghost predicate Consistent(b: Book, h: Hashing) {
    Core(b, h) && Referenced(b, {}) && Drift(b) == (0, 0, 0)
  }

  // ----- the operations

  function Find(b: Book, net: NetAddr): Option<int> {
    if net in b.addr && b.addr[net] in b.info then Some(b.addr[net]) else None
  }

  function Create(b: Book, a: Address, source: NetAddr): Book {
    b.(idCount := b.idCount + 1,
       info := b.info[b.idCount := Info(a, source, 0, 0, 0, 0, 0, false, |b.random|)],
       addr := b.addr[a.net := b.idCount],
       random := b.random + [b.idCount])
  }

  /** The asserts of SwapRandom. */
  predicate CanSwap(b: Book, i: int, j: int) {
    i != j ==> 0 <= i < |b.random| && 0 <= j < |b.random| && b.random[i] in b.info && b.random[j] in b.info
  }

  function SwapRandom(b: Book, i: int, j: int): Book
    requires CanSwap(b, i, j)
  {
    if i == j then b else
    var x, y := b.random[i], b.random[j];
    var info := b.info[x := b.info[x].(randomPos := j)];
    b.(info := info[y := info[y].(randomPos := i)], random := b.random[i := y][j := x])
  }

  /** The asserts of Delete and of the swap in it. */
  predicate CanDelete(b: Book, id: int) {
    && id in b.info && !b.info[id].inTried && b.info[id].refCount == 0
    && 0 <= b.info[id].randomPos < |b.random|
    && b.random[b.info[id].randomPos] in b.info && b.random[|b.random| - 1] in b.info
  }

  function Delete(b: Book, id: int): Book
    requires CanDelete(b, id)
  {
    var c := SwapRandom(b, b.info[id].randomPos, |b.random| - 1);
    c.(random := c.random[..|c.random| - 1],
       addr := c.addr - {c.info[id].address.net},
       info := c.info - {id},
       nNew := c.nNew - 1)
  }

  function Unref(b: Book, s: Slot): Book
    requires s in b.newTable && b.newTable[s] in b.info
  {
    var id := b.newTable[s];
    b.(info := b.info[id := b.info[id].(refCount := b.info[id].refCount - 1)], newTable := b.newTable - {s})
  }

  predicate CanClear(b: Book, s: Slot) {
    s in b.newTable ==>
      && b.newTable[s] in b.info && b.info[b.newTable[s]].refCount > 0
      && (b.info[b.newTable[s]].refCount == 1 ==> CanDelete(Unref(b, s), b.newTable[s]))
  }

  function ClearNew(b: Book, s: Slot): Book
    requires CanClear(b, s)
  {
    if s !in b.newTable then b else
    var id := b.newTable[s];
    var c := Unref(b, s);
    if c.info[id].refCount == 0 then Delete(c, id) else c
  }

  /** The slots in which MakeTried and Good look for an entry: one per bucket. */
  function Hits(b: Book, h: Hashing, id: int): set<Slot>
    requires id in b.info
  {
    set s | s in b.newTable && b.newTable[s] == id && 0 <= s.bucket < NEW_BUCKET_COUNT
      && s == h.NewSlot(s.bucket, b.info[id].address)
  }

  function DropRefs(b: Book, h: Hashing, id: int): Book
    requires id in b.info
  {
    var e := b.info[id];
    b.(info := b.info[id := e.(refCount := e.refCount - |Hits(b, h, id)|)], newTable := b.newTable - Hits(b, h, id),
       nNew := b.nNew - 1)
  }

  /** Takes a tried entry out of its slot; it has no place yet. */
  function Untry(b: Book, s: Slot): Book
    requires s in b.triedTable && b.triedTable[s] in b.info
  {
    var id := b.triedTable[s];
    b.(info := b.info[id := b.info[id].(inTried := false)], triedTable := b.triedTable - {s}, nTried := b.nTried - 1)
  }

  function HomeSlot(b: Book, h: Hashing, id: int): Slot
    requires id in b.info
  {
    var e := b.info[id];
    h.NewSlot(h.NewBucket(e.address, e.source), e.address)
  }

  predicate CanEvict(b: Book, h: Hashing, s: Slot) {
    s in b.triedTable ==>
      && b.triedTable[s] in b.info
      && var c := Untry(b, s);
         var home := HomeSlot(c, h, b.triedTable[s]);
         CanClear(c, home) && b.triedTable[s] in ClearNew(c, home).info && home !in ClearNew(c, home).newTable
  }

  function Evict(b: Book, h: Hashing, s: Slot): Book
    requires CanEvict(b, h, s)
  {
    if s !in b.triedTable then b else
    var id := b.triedTable[s];
    var c := Untry(b, s);
    var home := HomeSlot(c, h, id);
    var d := ClearNew(c, home);
    d.(info := d.info[id := d.info[id].(refCount := 1)], newTable := d.newTable[home := id], nNew := d.nNew + 1)
  }

  predicate CanMakeTried(b: Book, h: Hashing, id: int) {
    && id in b.info
    && var c := DropRefs(b, h, id);
       var s := h.TriedSlot(b.info[id].address);
       c.info[id].refCount == 0 && CanEvict(c, h, s) && id in Evict(c, h, s).info && s !in Evict(c, h, s).triedTable
  }

  function MakeTried(b: Book, h: Hashing, id: int): Book
    requires CanMakeTried(b, h, id)
  {
    var s := h.TriedSlot(b.info[id].address);
    var c := Evict(DropRefs(b, h, id), h, s);
    c.(triedTable := c.triedTable[s := id], nTried := c.nTried + 1, info := c.info[id := c.info[id].(inTried := true)])
  }

  // ----- lemmas about the helpers

  /** The same entries up to their place in the random vector. */
  ghost predicate SameButRandom(before: map<int, Info>, after: map<int, Info>) {
    forall id :: id in after ==> id in before && after[id] == before[id].(randomPos := after[id].randomPos)
  }

  lemma SwapLinked(b: Book, i: int, j: int)
    requires Linked(b) && 0 <= i < |b.random| && 0 <= j < |b.random|
    ensures b.random[i] in b.info && b.random[j] in b.info
    ensures Linked(SwapRandom(b, i, j))
    ensures SwapRandom(b, i, j).info.Keys == b.info.Keys
    ensures SameButRandom(b.info, SwapRandom(b, i, j).info)
  {
    assert RandomLinked(b, i) && RandomLinked(b, j);
    if i != j {
      var c := SwapRandom(b, i, j);
      assert c.info.Keys == b.info.Keys;
      forall id | id in c.info ensures EntryLinked(c, id) {
        assert EntryLinked(b, id);
      }
      forall a | a in c.addr ensures AddrLinked(c, a) {
        assert AddrLinked(b, a);
      }
      forall k | 0 <= k < |c.random| ensures RandomLinked(c, k) {
        assert RandomLinked(b, k);
      }
    }
  }

  lemma PopLinked(c: Book, d: Book, id: int)
    requires Linked(c) && id in c.info && c.info[id].randomPos == |c.random| - 1
    requires |c.random| > 0 && d.random == c.random[..|c.random| - 1] && d.idCount == c.idCount
    requires d.addr == c.addr - {c.info[id].address.net} && d.info == c.info - {id}
    ensures Linked(d)
  {
    assert EntryLinked(c, id);
    assert d.info.Keys == c.info.Keys - {id};
    forall i | i in d.info ensures EntryLinked(d, i) {
      assert EntryLinked(c, i);
    }
    forall a | a in d.addr ensures AddrLinked(d, a) {
      assert AddrLinked(c, a);
    }
    forall k | 0 <= k < |d.random| ensures RandomLinked(d, k) {
      assert RandomLinked(c, k);
    }
  }

  lemma DeleteLinked(b: Book, id: int)
    requires Linked(b) && id in b.info && !b.info[id].inTried && b.info[id].refCount == 0
    ensures CanDelete(b, id)
    ensures Linked(Delete(b, id))
    ensures Delete(b, id).info.Keys == b.info.Keys - {id}
    ensures SameButRandom(b.info, Delete(b, id).info)
  {
    assert EntryLinked(b, id);
    var n := |b.random| - 1;
    var p := b.info[id].randomPos;
    SwapLinked(b, p, n);
    var c := SwapRandom(b, p, n);
    assert RandomLinked(c, n);
    assert c.random[n] == id;
    PopLinked(c, Delete(b, id), id);
  }

  /** The tables stay right when entries outside them go and positions move. */
  lemma TabledFrame(b: Book, c: Book, h: Hashing)
    requires Tabled(b, h) && SameButRandom(b.info, c.info)
    requires c.newTable == b.newTable && c.triedTable == b.triedTable
    requires forall s :: s in b.newTable ==> b.newTable[s] in c.info
    requires forall s :: s in b.triedTable ==> b.triedTable[s] in c.info
    ensures Tabled(c, h)
  {
    forall s | s in c.newTable ensures NewSlotOk(c, h, s) {
      assert NewSlotOk(b, h, s);
    }
    forall s | s in c.triedTable ensures TriedSlotOk(c, h, s) {
      assert TriedSlotOk(b, h, s);
    }
    forall id | id in c.info ensures EntryTabled(c, h, id) {
      assert EntryTabled(b, h, id);
    }
  }

  /** What is left when an unreferenced untried entry has gone. */
  lemma GoneKeeps(b: Book, c: Book, h: Hashing, id: int, limbo: set<int>)
    requires Tabled(b, h) && Referenced(b, limbo) && id in b.info && !b.info[id].inTried && b.info[id].refCount == 0
    requires c.info.Keys == b.info.Keys - {id} && SameButRandom(b.info, c.info)
    requires c.newTable == b.newTable && c.triedTable == b.triedTable
    ensures Tabled(c, h) && Referenced(c, limbo - {id})
    ensures |Untried(c.info)| == |Untried(b.info)| - 1 && |Tried(c.info)| == |Tried(b.info)|
  {
    assert EntryTabled(b, h, id);
    assert SlotsOf(b.newTable, id) == {};
    forall s | s in b.newTable ensures b.newTable[s] in c.info {
      assert NewSlotOk(b, h, s);
      assert s in SlotsOf(b.newTable, b.newTable[s]);
    }
    forall s | s in b.triedTable ensures b.triedTable[s] in c.info {
      assert TriedSlotOk(b, h, s);
    }
    TabledFrame(b, c, h);
    forall i | i in b.info && i != id ensures i in c.info && c.info[i].inTried == b.info[i].inTried {
      assert i in c.info.Keys;
    }
    assert Untried(c.info) == Untried(b.info) - {id};
    assert Tried(c.info) == Tried(b.info);
  }

  lemma DeleteKeeps(b: Book, h: Hashing, id: int, limbo: set<int>)
    requires Core(b, h) && id in b.info && !b.info[id].inTried && b.info[id].refCount == 0
    requires Referenced(b, limbo)
    ensures CanDelete(b, id)
    ensures var c := Delete(b, id);
      && Core(c, h) && Referenced(c, limbo - {id})
      && c.info.Keys == b.info.Keys - {id} && SameButRandom(b.info, c.info)
      && c.newTable == b.newTable && c.triedTable == b.triedTable
      && Drift(c) == Drift(b)
  {
    DeleteLinked(b, id);
    GoneKeeps(b, Delete(b, id), h, id, limbo);
  }

  /** The counters play no part in the core conditions. */
  lemma CoreFrame(b: Book, c: Book, h: Hashing)
    requires Core(b, h)
    requires c.idCount == b.idCount && c.info == b.info && c.addr == b.addr && c.random == b.random
    requires c.newTable == b.newTable && c.triedTable == b.triedTable
    ensures Core(c, h)
  {
    forall i | i in c.info ensures EntryLinked(c, i) && EntryTabled(c, h, i) {
      assert EntryLinked(b, i) && EntryTabled(b, h, i);
    }
    forall a | a in c.addr ensures AddrLinked(c, a) {
      assert AddrLinked(b, a);
    }
    forall k | 0 <= k < |c.random| ensures RandomLinked(c, k) {
      assert RandomLinked(b, k);
    }
    forall t | t in c.newTable ensures NewSlotOk(c, h, t) {
      assert NewSlotOk(b, h, t);
    }
    forall t | t in c.triedTable ensures TriedSlotOk(c, h, t) {
      assert TriedSlotOk(b, h, t);
    }
  }

  /** Changing the statistics of an entry. */
  ghost predicate SameButStats(e: Info, f: Info) {
    && f.address.net == e.address.net && f.address.port == e.address.port
    && f.refCount == e.refCount && f.inTried == e.inTried && f.randomPos == e.randomPos
    && f.lastTry >= 0 && f.lastSuccess >= 0 && (f.inTried ==> f.lastSuccess != 0)
  }

  lemma UpdateLinked(b: Book, c: Book, id: int, e: Info)
    requires Linked(b) && id in b.info && e.address.net == b.info[id].address.net && e.randomPos == b.info[id].randomPos
    requires c.info == b.info[id := e] && c.addr == b.addr && c.random == b.random && c.idCount == b.idCount
    ensures Linked(c)
  {
    assert c.info.Keys == b.info.Keys;
    forall i | i in c.info ensures EntryLinked(c, i) {
      assert EntryLinked(b, i);
    }
    forall a | a in c.addr ensures AddrLinked(c, a) {
      assert AddrLinked(b, a);
    }
    forall k | 0 <= k < |c.random| ensures RandomLinked(c, k) {
      assert RandomLinked(b, k);
    }
  }

  lemma UpdateKeeps(b: Book, h: Hashing, id: int, e: Info, limbo: set<int>)
    requires Core(b, h) && Referenced(b, limbo) && id in b.info && SameButStats(b.info[id], e)
    ensures var c := b.(info := b.info[id := e]);
      Core(c, h) && Referenced(c, limbo) && Drift(c) == Drift(b)
  {
    var c := b.(info := b.info[id := e]);
    UpdateLinked(b, c, id, e);
    UpdateTabled(b, c, h, id, e, limbo);
  }

  lemma UpdateTabled(b: Book, c: Book, h: Hashing, id: int, e: Info, limbo: set<int>)
    requires Tabled(b, h) && Referenced(b, limbo) && id in b.info && SameButStats(b.info[id], e)
    requires c == b.(info := b.info[id := e])
    ensures Tabled(c, h) && Referenced(c, limbo) && Drift(c) == Drift(b)
  {
    forall i | i in c.info ensures EntryTabled(c, h, i) {
      assert EntryTabled(b, h, i);
    }
    forall s | s in c.newTable ensures NewSlotOk(c, h, s) {
      assert NewSlotOk(b, h, s);
    }
    forall s | s in c.triedTable ensures TriedSlotOk(c, h, s) {
      assert TriedSlotOk(b, h, s);
    }
    assert Untried(c.info) == Untried(b.info) && Tried(c.info) == Tried(b.info);
  }

  /** Taking one reference away. */
  lemma UnrefKeeps(b: Book, h: Hashing, s: Slot, limbo: set<int>)
    requires Core(b, h) && Referenced(b, limbo) && s in b.newTable
    ensures b.newTable[s] in b.info && b.info[b.newTable[s]].refCount > 0 && !b.info[b.newTable[s]].inTried
    ensures var c := Unref(b, s);
      && Core(c, h) && Referenced(c, limbo + {b.newTable[s]})
      && Drift(c) == Drift(b)
  {
    assert NewSlotOk(b, h, s);
    var id := b.newTable[s];
    var c := Unref(b, s);
    UpdateLinked(b, c, id, c.info[id]);
    assert EntryTabled(b, h, id);
    assert s in SlotsOf(b.newTable, id);
    UnrefTabled(b, c, h, s, limbo);
  }

  lemma UnrefTabled(b: Book, c: Book, h: Hashing, s: Slot, limbo: set<int>)
    requires Tabled(b, h) && Referenced(b, limbo) && s in b.newTable && b.newTable[s] in b.info && c == Unref(b, s)
    ensures Tabled(c, h) && Referenced(c, limbo + {b.newTable[s]})
    ensures Drift(c) == Drift(b)
  {
    var id := b.newTable[s];
    forall i | i in c.info ensures EntryTabled(c, h, i) {
      assert EntryTabled(b, h, i);
      SlotsShrink(b.newTable, s, i);
    }
    forall t | t in c.newTable ensures NewSlotOk(c, h, t) {
      assert NewSlotOk(b, h, t);
    }
    forall t | t in c.triedTable ensures TriedSlotOk(c, h, t) {
      assert TriedSlotOk(b, h, t);
    }
    assert Untried(c.info) == Untried(b.info) && Tried(c.info) == Tried(b.info);
  }

  lemma ClearKeeps(b: Book, h: Hashing, s: Slot, limbo: set<int>)
    requires Core(b, h) && Referenced(b, limbo)
    ensures CanClear(b, s)
    ensures var c := ClearNew(b, s);
      && Core(c, h) && Referenced(c, limbo)
      && c.newTable == b.newTable - {s} && c.triedTable == b.triedTable
      && Drift(c) == Drift(b)
      && SameButUnref(b, c, s)
  {
    if s in b.newTable {
      UnrefKeeps(b, h, s, limbo);
      var id := b.newTable[s];
      var c := Unref(b, s);
      if c.info[id].refCount == 0 {
        DeleteKeeps(c, h, id, limbo + {id});
      }
    }
  }

  /** Clearing a slot touches no entry but the one in it, which may be gone. */
  ghost predicate SameButUnref(b: Book, c: Book, s: Slot) {
    && (forall id :: id in b.info && (s in b.newTable ==> b.newTable[s] != id) ==>
          id in c.info && c.info[id] == b.info[id].(randomPos := c.info[id].randomPos))
    && (forall id :: id in c.info ==> id in b.info)
    && (s in b.newTable && b.newTable[s] in b.info && b.info[b.newTable[s]].refCount > 1 ==> b.newTable[s] in c.info)
  }

  /** All references of an entry are among its hits, so MakeTried drops them all. */
  lemma DropRefsKeeps(b: Book, h: Hashing, id: int)
    requires Core(b, h) && Referenced(b, {}) && id in b.info && !b.info[id].inTried
    ensures Hits(b, h, id) == SlotsOf(b.newTable, id)
    ensures var c := DropRefs(b, h, id);
      && Core(c, h) && Referenced(c, {id}) && c.info[id] == b.info[id].(refCount := 0)
      && Drift(c) == (NewDrift(b) - 1, TriedDrift(b), Drift(b).2 + 1)
  {
    forall s | s in SlotsOf(b.newTable, id) ensures s in Hits(b, h, id) {
      assert NewSlotOk(b, h, s);
    }
    assert Hits(b, h, id) == SlotsOf(b.newTable, id);
    assert EntryTabled(b, h, id);
    var c := DropRefs(b, h, id);
    UpdateLinked(b, c, id, c.info[id]);
    DropTabled(b, c, h, id);
    assert Untried(c.info) == Untried(b.info) && Tried(c.info) == Tried(b.info);
  }

  lemma DropTabled(b: Book, c: Book, h: Hashing, id: int)
    requires Tabled(b, h) && id in b.info
    requires c.info == b.info[id := b.info[id].(refCount := 0)] && c.triedTable == b.triedTable
    requires c.newTable == b.newTable - SlotsOf(b.newTable, id)
    ensures Tabled(c, h)
  {
    forall i | i in c.info ensures EntryTabled(c, h, i) {
      assert EntryTabled(b, h, i);
      assert SlotsOf(c.newTable, i) == if i == id then {} else SlotsOf(b.newTable, i);
    }
    forall t | t in c.newTable ensures NewSlotOk(c, h, t) {
      assert NewSlotOk(b, h, t);
    }
    forall t | t in c.triedTable ensures TriedSlotOk(c, h, t) {
      assert TriedSlotOk(b, h, t);
    }
  }

  lemma UntryKeeps(b: Book, h: Hashing, s: Slot, limbo: set<int>)
    requires Core(b, h) && Referenced(b, limbo) && s in b.triedTable
    ensures b.triedTable[s] in b.info && b.info[b.triedTable[s]].inTried
    ensures var c := Untry(b, s);
      var id := b.triedTable[s];
      && Core(c, h) && Referenced(c, limbo + {id}) && SlotsOf(c.newTable, id) == {} && c.info[id].refCount == 0
      && Drift(c) == (NewDrift(b) - 1, TriedDrift(b), Drift(b).2 + 1)
  {
    assert TriedSlotOk(b, h, s);
    var id := b.triedTable[s];
    var c := Untry(b, s);
    UpdateLinked(b, c, id, c.info[id]);
    UntryTabled(b, c, h, s);
    assert Untried(c.info) == Untried(b.info) + {id} && Tried(c.info) == Tried(b.info) - {id};
  }

  lemma UntryTabled(b: Book, c: Book, h: Hashing, s: Slot)
    requires Tabled(b, h) && s in b.triedTable && b.triedTable[s] in b.info && b.info[b.triedTable[s]].inTried
    requires c.info == b.info[b.triedTable[s] := b.info[b.triedTable[s]].(inTried := false)]
    requires c.triedTable == b.triedTable - {s} && c.newTable == b.newTable
    ensures Tabled(c, h)
    ensures SlotsOf(c.newTable, b.triedTable[s]) == {} && c.info[b.triedTable[s]].refCount == 0
  {
    var id := b.triedTable[s];
    forall t | t in c.newTable ensures NewSlotOk(c, h, t) && b.newTable[t] != id {
      assert NewSlotOk(b, h, t);
    }
    assert SlotsOf(c.newTable, id) == {};
    forall i | i in c.info ensures EntryTabled(c, h, i) {
      assert EntryTabled(b, h, i);
    }
    forall t | t in c.triedTable ensures TriedSlotOk(c, h, t) {
      assert TriedSlotOk(b, h, t);
      assert TriedSlotOk(b, h, s);
    }
  }

  /** Entering an untried entry into a free slot of the new table. */
  lemma RefKeeps(b: Book, c: Book, h: Hashing, id: int, s: Slot, limbo: set<int>)
    requires Core(b, h) && Referenced(b, limbo) && id in b.info && !b.info[id].inTried
    requires 0 <= s.bucket < NEW_BUCKET_COUNT && s == h.NewSlot(s.bucket, b.info[id].address) && s !in b.newTable
    requires b.info[id].refCount < NEW_BUCKETS_PER_ADDRESS
    requires c == b.(info := b.info[id := b.info[id].(refCount := b.info[id].refCount + 1)],
                     newTable := b.newTable[s := id])
    ensures Core(c, h) && Referenced(c, limbo - {id}) && Drift(c) == Drift(b)
  {
    assert EntryTabled(b, h, id);
    UpdateLinked(b, c, id, c.info[id]);
    RefTabled(b, c, h, id, s);
    assert Untried(c.info) == Untried(b.info) && Tried(c.info) == Tried(b.info);
  }

  lemma SlotsGrow(t: Table, s: Slot, id: int, i: int)
    requires s !in t
    ensures |SlotsOf(t[s := id], i)| == |SlotsOf(t, i)| + if i == id then 1 else 0
  {
    assert SlotsOf(t[s := id], i) == SlotsOf(t, i) + if i == id then {s} else {};
  }

  lemma SlotsShrink(t: Table, s: Slot, i: int)
    requires s in t
    ensures |SlotsOf(t - {s}, i)| == |SlotsOf(t, i)| - if i == t[s] then 1 else 0
  {
    assert SlotsOf(t - {s}, i) == SlotsOf(t, i) - if i == t[s] then {s} else {};
    assert i == t[s] ==> s in SlotsOf(t, i);
  }

  lemma RefTabled(b: Book, c: Book, h: Hashing, id: int, s: Slot)
    requires Tabled(b, h) && id in b.info && !b.info[id].inTried
    requires 0 <= s.bucket < NEW_BUCKET_COUNT && s == h.NewSlot(s.bucket, b.info[id].address) && s !in b.newTable
    requires b.info[id].refCount < NEW_BUCKETS_PER_ADDRESS && c.triedTable == b.triedTable
    requires c.info == b.info[id := b.info[id].(refCount := b.info[id].refCount + 1)]
      && c.newTable == b.newTable[s := id]
    ensures Tabled(c, h)
  {
    forall i | i in c.info ensures EntryTabled(c, h, i) {
      assert EntryTabled(b, h, i);
      SlotsGrow(b.newTable, s, id, i);
    }
    forall t | t in c.newTable ensures NewSlotOk(c, h, t) {
      assert t != s ==> NewSlotOk(b, h, t);
    }
    forall t | t in c.triedTable ensures TriedSlotOk(c, h, t) {
      assert TriedSlotOk(b, h, t);
    }
  }

  lemma EvictKeeps(b: Book, h: Hashing, s: Slot, limbo: set<int>)
    requires Core(b, h) && Referenced(b, limbo)
    ensures CanEvict(b, h, s)
    ensures var c := Evict(b, h, s);
      && Core(c, h) && Referenced(c, limbo) && c.triedTable == b.triedTable - {s} && Drift(c) == Drift(b)
      && (forall id :: id in limbo && id in b.info && !b.info[id].inTried && b.info[id].refCount == 0 ==>
            id in c.info && c.info[id] == b.info[id].(randomPos := c.info[id].randomPos))
  {
    if s in b.triedTable {
      UntryKeeps(b, h, s, limbo);
      var id := b.triedTable[s];
      var c := Untry(b, s);
      var home := HomeSlot(c, h, id);
      ClearKeeps(c, h, home, limbo + {id});
      UnplacedSurvive(c, h, home, limbo + {id});
      var d := ClearNew(c, home);
      var e := Evict(b, h, s).(nNew := d.nNew);
      RefKeeps(d, e, h, id, home, limbo + {id});
      CoreFrame(e, Evict(b, h, s), h);
    }
  }

  lemma UnplacedSurvive(b: Book, h: Hashing, s: Slot, limbo: set<int>)
    requires Core(b, h) && Referenced(b, limbo)
    ensures CanClear(b, s)
    ensures forall i :: i in b.info && b.info[i].refCount == 0 ==>
      i in ClearNew(b, s).info && ClearNew(b, s).info[i] == b.info[i].(randomPos := ClearNew(b, s).info[i].randomPos)
  {
    ClearKeeps(b, h, s, limbo);
    forall i | i in b.info && b.info[i].refCount == 0 ensures s in b.newTable ==> b.newTable[s] != i {
      assert EntryTabled(b, h, i);
      assert SlotsOf(b.newTable, i) == {};
      assert s in b.newTable ==> s in SlotsOf(b.newTable, b.newTable[s]);
    }
  }

  lemma TryTabled(b: Book, c: Book, h: Hashing, id: int)
    requires Tabled(b, h) && id in b.info && !b.info[id].inTried && b.info[id].refCount == 0
      && b.info[id].lastSuccess != 0
    requires h.TriedSlot(b.info[id].address) !in b.triedTable
    requires c.info == b.info[id := b.info[id].(inTried := true)] && c.newTable == b.newTable
    requires c.triedTable == b.triedTable[h.TriedSlot(b.info[id].address) := id]
    ensures Tabled(c, h)
  {
    var s := h.TriedSlot(b.info[id].address);
    assert EntryTabled(b, h, id);
    assert SlotsOf(b.newTable, id) == {};
    forall i | i in c.info ensures EntryTabled(c, h, i) {
      assert EntryTabled(b, h, i);
    }
    forall t | t in c.newTable ensures NewSlotOk(c, h, t) {
      assert NewSlotOk(b, h, t);
      assert t in SlotsOf(b.newTable, b.newTable[t]);
    }
    forall t | t in c.triedTable ensures TriedSlotOk(c, h, t) {
      assert t != s ==> TriedSlotOk(b, h, t);
    }
  }

  /** Moving an untried entry to the tried table: no assert can fail, and the
      entry takes its own slot from whichever entry held it. */
  lemma MakeTriedKeeps(b: Book, h: Hashing, id: int)
    requires Consistent(b, h) && id in b.info && !b.info[id].inTried && b.info[id].lastSuccess != 0
    ensures CanMakeTried(b, h, id)
    ensures Consistent(MakeTried(b, h, id), h)
    ensures id in MakeTried(b, h, id).info && MakeTried(b, h, id).info[id].inTried
    ensures MakeTried(b, h, id).triedTable == b.triedTable[h.TriedSlot(b.info[id].address) := id]
  {
    var s := h.TriedSlot(b.info[id].address);
    DropRefsKeeps(b, h, id);
    var c := DropRefs(b, h, id);
    EvictKeeps(c, h, s, {id});
    var d := Evict(c, h, s);
    assert d.info[id] == c.info[id].(randomPos := d.info[id].randomPos);
    TryKeeps(d, h, id);
  }

  /** The entry in limbo goes into its own slot, which is free. */
  lemma TryKeeps(d: Book, h: Hashing, id: int)
    requires Core(d, h) && Referenced(d, {id}) && id in d.info && !d.info[id].inTried && d.info[id].refCount == 0
    requires d.info[id].lastSuccess != 0 && h.TriedSlot(d.info[id].address) !in d.triedTable
    requires Drift(d) == (-1, 0, 1)
    ensures Consistent(d.(triedTable := d.triedTable[h.TriedSlot(d.info[id].address) := id], nTried := d.nTried + 1,
                          info := d.info[id := d.info[id].(inTried := true)]), h)
  {
    var e := d.(triedTable := d.triedTable[h.TriedSlot(d.info[id].address) := id], nTried := d.nTried + 1,
                info := d.info[id := d.info[id].(inTried := true)]);
    UpdateLinked(d, e, id, e.info[id]);
    TryTabled(d, e, h, id);
    assert Untried(e.info) == Untried(d.info) - {id} && Tried(e.info) == Tried(d.info) + {id};
  }
}

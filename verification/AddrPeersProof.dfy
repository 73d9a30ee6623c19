/** Writing an address manager and reading it back loses nothing. */
module AddrPeersProof {
  import opened AddrModel
  import opened AddrPeersModel
  import opened Wrappers

  // ----- the entries in the order they are written

  /** New entries first, then tried ones; each group in the order of ids. */
  ghost function Olds(b: Book): seq<int> {
    Listed(b, b.idCount, false) + Listed(b, b.idCount, true)
  }

  ghost function News(b: Book): nat {
    |Listed(b, b.idCount, false)|
  }

  lemma RefCountOfTried(b: Book, h: Hashing, id: int)
    requires Consistent(b, h) && id in b.info
    ensures b.info[id].refCount != 0 <==> !b.info[id].inTried
  {
    assert EntryTabled(b, h, id);
    if b.info[id].inTried {
      forall s | s in b.newTable
        ensures b.newTable[s] != id
      {
        assert NewSlotOk(b, h, s);
      }
      assert SlotsOf(b.newTable, id) == {};
    }
  }

  lemma OldsAt(b: Book, h: Hashing, i: nat)
    requires Consistent(b, h) && i < |Olds(b)|
    ensures Olds(b)[i] in b.info && (b.info[Olds(b)[i]].inTried <==> i >= News(b))
  {
    var id := Olds(b)[i];
    ListedIs(b, b.idCount, false, id);
    ListedIs(b, b.idCount, true, id);
    if i < News(b) {
      assert id in Listed(b, b.idCount, false);
      RefCountOfTried(b, h, id);
    } else {
      assert id == Listed(b, b.idCount, true)[i - News(b)];
    }
  }

  lemma OldsDistinct(b: Book, h: Hashing, i: nat, j: nat)
    requires Consistent(b, h) && i < j < |Olds(b)|
    ensures Olds(b)[i] != Olds(b)[j]
  {
    OldsAt(b, h, i);
    OldsAt(b, h, j);
    var k := News(b);
    if j < k {
      ListedRises(b, b.idCount, false, i, j);
    } else if i >= k {
      ListedRises(b, b.idCount, true, i - k, j - k);
    }
  }

  lemma InOlds(b: Book, h: Hashing, id: int) returns (i: nat)
    requires Consistent(b, h) && id in b.info
    ensures i < |Olds(b)| && Olds(b)[i] == id
  {
    assert EntryLinked(b, id);
    RefCountOfTried(b, h, id);
    ListedIs(b, b.idCount, false, id);
    ListedIs(b, b.idCount, true, id);
    assert id in Olds(b);
    i :| 0 <= i < |Olds(b)| && Olds(b)[i] == id;
  }

  lemma {:induction false} SetOfDistinct(s: seq<int>)
    requires forall i, j :: 0 <= i < j < |s| ==> s[i] != s[j]
    ensures |set x | x in s| == |s|
  {
    if s == [] {
      assert (set x | x in s) == {};
    } else {
      var t, y := s[..|s| - 1], s[|s| - 1];
      SetOfDistinct(t);
      assert (set x | x in s) == (set x | x in t) + {y};
    }
  }

  /** As many entries of either kind are written as the counters say. */
  lemma ListedSizes(b: Book, h: Hashing)
    requires Consistent(b, h)
    ensures |Listed(b, b.idCount, false)| == b.nNew && |Listed(b, b.idCount, true)| == b.nTried
  {
    ListedSize(b, h, false);
    ListedSize(b, h, true);
  }

  lemma ListedSize(b: Book, h: Hashing, tried: bool)
    requires Consistent(b, h)
    ensures |Listed(b, b.idCount, tried)| == |if tried then Tried(b.info) else Untried(b.info)|
  {
    var s := Listed(b, b.idCount, tried);
    forall i, j | 0 <= i < j < |s|
      ensures s[i] != s[j]
    {
      ListedRises(b, b.idCount, tried, i, j);
    }
    SetOfDistinct(s);
    var want := if tried then Tried(b.info) else Untried(b.info);
    forall id
      ensures id in s <==> id in want
    {
      ListedIs(b, b.idCount, tried, id);
      if id in b.info {
        assert EntryLinked(b, id);
        RefCountOfTried(b, h, id);
      }
    }
    assert (set x | x in s) == want;
  }

  // ----- what has been read

  /** The entry read as number i, with as many references as slots. */
  ghost function Read(b: Book, t: Table, i: nat): Info
    requires i < |Olds(b)| && Olds(b)[i] in b.info
  {
    InfoOf(RecordOf(b.info[Olds(b)[i]]), i >= News(b), i).(refCount := |SlotsOf(t, i)|)
  }

  ghost function Net(b: Book, i: nat): NetAddr
    requires i < |Olds(b)| && Olds(b)[i] in b.info
  {
    b.info[Olds(b)[i]].address.net
  }

  ghost predicate EntryRead(b: Book, r: Book, i: nat) {
    && i < |Olds(b)| && Olds(b)[i] in b.info
    && i in r.info && r.info[i] == Read(b, r.newTable, i)
    && Net(b, i) in r.addr && r.addr[Net(b, i)] == i
  }

  ghost predicate AddrRead(b: Book, addr: map<NetAddr, int>, n: nat, a: NetAddr)
    requires a in addr
  {
    var i := addr[a];
    0 <= i < n && i < |Olds(b)| && Olds(b)[i] in b.info && Net(b, i) == a
  }

  ghost predicate TriedRead(b: Book, h: Hashing, t: Table, i: nat) {
    && i < |Olds(b)| && Olds(b)[i] in b.info
    && var s := h.TriedSlot(b.info[Olds(b)[i]].address);
       s in t && t[s] == i
  }

  ghost predicate SlotRead(b: Book, h: Hashing, t: Table, n: nat, s: Slot)
    requires s in t
  {
    var i := t[s];
    && News(b) <= i < n && i < |Olds(b)| && Olds(b)[i] in b.info
    && s == h.TriedSlot(b.info[Olds(b)[i]].address)
  }

  ghost predicate AddrsRead(b: Book, addr: map<NetAddr, int>, n: nat) {
    forall a {:trigger AddrRead(b, addr, n, a)} :: a in addr ==> AddrRead(b, addr, n, a)
  }

  ghost predicate TriedTableRead(b: Book, h: Hashing, t: Table, n: nat) {
    && (forall i: nat {:trigger TriedRead(b, h, t, i)} :: News(b) <= i < n ==> TriedRead(b, h, t, i))
    && (forall s {:trigger SlotRead(b, h, t, n, s)} :: s in t ==> SlotRead(b, h, t, n, s))
  }

  ghost predicate InfoRead(b: Book, r: Book, n: nat) {
    && (forall i {:trigger i in r.info} :: i in r.info ==> 0 <= i < n)
    && (forall i: nat {:trigger EntryRead(b, r, i)} :: i < n ==> EntryRead(b, r, i))
  }

  /** The first n entries have been read, and nothing else. */
  ghost predicate Entered(b: Book, h: Hashing, r: Book, n: nat) {
    && n <= |Olds(b)| && r.random == seq(n, i => i) && r.nNew == b.nNew && r.nTried == b.nTried && r.lastGood == 1
    && InfoRead(b, r, n) && AddrsRead(b, r.addr, n) && TriedTableRead(b, h, r.triedTable, n)
  }

  lemma NetsDiffer(b: Book, h: Hashing, i: nat, j: nat)
    requires Consistent(b, h) && i < j < |Olds(b)|
    ensures Olds(b)[i] in b.info && Olds(b)[j] in b.info && Net(b, i) != Net(b, j)
  {
    OldsAt(b, h, i);
    OldsAt(b, h, j);
    OldsDistinct(b, h, i, j);
    assert EntryLinked(b, Olds(b)[i]) && EntryLinked(b, Olds(b)[j]);
  }

  /** One entry more. The new table is empty while entries are read. */
  lemma EnterOne(b: Book, h: Hashing, r: Book, c: Book, n: nat)
    requires Consistent(b, h) && Entered(b, h, r, n) && n < |Olds(b)| && r.newTable == map[]
    requires Olds(b)[n] in b.info
    requires var e := b.info[Olds(b)[n]];
      && c.info == r.info[n := InfoOf(RecordOf(e), n >= News(b), n)] && c.addr == r.addr[e.address.net := n]
      && c.random == r.random + [n] && c.newTable == r.newTable
      && c.nNew == r.nNew && c.nTried == r.nTried && c.lastGood == r.lastGood
      && c.triedTable == if n >= News(b) then r.triedTable[h.TriedSlot(e.address) := n] else r.triedTable
    ensures Entered(b, h, c, n + 1)
  {
    assert c.random == seq(n + 1, i => i);
    EnterInfo(b, h, r, c, n);
    EnterAddr(b, r.addr, n);
    EnterTable(b, h, r.triedTable, n);
  }

  lemma EnterInfo(b: Book, h: Hashing, r: Book, c: Book, n: nat)
    requires Consistent(b, h) && InfoRead(b, r, n) && n < |Olds(b)| && r.newTable == map[] == c.newTable
    requires Olds(b)[n] in b.info
    requires c.info == r.info[n := InfoOf(RecordOf(b.info[Olds(b)[n]]), n >= News(b), n)]
    requires c.addr == r.addr[Net(b, n) := n]
    ensures InfoRead(b, c, n + 1)
  {
    forall i: nat | i < n + 1
      ensures EntryRead(b, c, i)
    {
      assert SlotsOf(c.newTable, i) == {};
      if i < n {
        assert EntryRead(b, r, i);
        NetsDiffer(b, h, i, n);
      }
    }
  }

  lemma EnterAddr(b: Book, addr: map<NetAddr, int>, n: nat)
    requires AddrsRead(b, addr, n) && n < |Olds(b)| && Olds(b)[n] in b.info
    ensures AddrsRead(b, addr[Net(b, n) := n], n + 1)
  {
    var next := addr[Net(b, n) := n];
    forall a | a in next
      ensures AddrRead(b, next, n + 1, a)
    {
      if a != Net(b, n) {
        assert AddrRead(b, addr, n, a);
      }
    }
  }

  lemma EnterTable(b: Book, h: Hashing, t: Table, n: nat)
    requires Consistent(b, h) && TriedTableRead(b, h, t, n) && n < |Olds(b)| && Olds(b)[n] in b.info
    ensures n < News(b) ==> TriedTableRead(b, h, t, n + 1)
    ensures n >= News(b) ==> TriedTableRead(b, h, t[h.TriedSlot(b.info[Olds(b)[n]].address) := n], n + 1)
  {
    var next := if n < News(b) then t else t[h.TriedSlot(b.info[Olds(b)[n]].address) := n];
    forall i: nat | News(b) <= i < n + 1
      ensures TriedRead(b, h, next, i)
    {
      if i < n {
        assert TriedRead(b, h, t, i);
        SlotsDiffer(b, h, i, n);
      }
    }
    forall s | s in next
      ensures SlotRead(b, h, next, n + 1, s)
    {
      if s in t {
        assert SlotRead(b, h, t, n, s);
      }
    }
  }

  lemma SlotsDiffer(b: Book, h: Hashing, i: nat, j: nat)
    requires Consistent(b, h) && News(b) <= i < j < |Olds(b)|
    ensures Olds(b)[i] in b.info && Olds(b)[j] in b.info
    ensures h.TriedSlot(b.info[Olds(b)[i]].address) != h.TriedSlot(b.info[Olds(b)[j]].address)
  {
    OldsAt(b, h, i);
    OldsAt(b, h, j);
    OldsDistinct(b, h, i, j);
    assert EntryTabled(b, h, Olds(b)[i]) && EntryTabled(b, h, Olds(b)[j]);
  }

  ghost function Start(b: Book): Book {
    EMPTY_BOOK.(nNew := b.nNew, nTried := b.nTried)
  }

  lemma {:induction false} NewAreRead(b: Book, h: Hashing, n: nat)
    requires Consistent(b, h) && n <= News(b)
    ensures |Save(b).newRecords| == News(b)
    ensures var r := LoadNew(Start(b), Save(b).newRecords, n);
      Entered(b, h, r, n) && r.newTable == map[] && r.idCount == 0 && r.triedTable == map[]
  {
    RecordAt(b, b.idCount, false, 0);
    if n > 0 {
      NewAreRead(b, h, n - 1);
      OldsAt(b, h, n - 1);
      RecordAt(b, b.idCount, false, n - 1);
      var r := LoadNew(Start(b), Save(b).newRecords, n - 1);
      EnterOne(b, h, r, EnterNew(r, Save(b).newRecords[n - 1]), n - 1);
    }
  }

  lemma TriedRecord(b: Book, n: nat)
    requires n < |Save(b).triedRecords|
    ensures News(b) + n < |Olds(b)| && Olds(b)[News(b) + n] in b.info
    ensures Save(b).triedRecords[n] == RecordOf(b.info[Olds(b)[News(b) + n]])
  {
    RecordAt(b, b.idCount, true, n);
  }

  /** The slot of the next tried entry is free. */
  lemma TriedSlotFree(b: Book, h: Hashing, r: Book, k: nat)
    requires Consistent(b, h) && Entered(b, h, r, k) && News(b) <= k < |Olds(b)| && Olds(b)[k] in b.info
    ensures h.TriedSlot(b.info[Olds(b)[k]].address) !in r.triedTable
  {
    var s := h.TriedSlot(b.info[Olds(b)[k]].address);
    if s in r.triedTable {
      assert SlotRead(b, h, r.triedTable, k, s);
      SlotsDiffer(b, h, r.triedTable[s], k);
    }
  }

  ghost predicate ReadingTried(b: Book, h: Hashing, r: Book, k: nat) {
    Entered(b, h, r, k) && r.newTable == map[] && r.idCount == k
  }

  lemma EnterTriedKeeps(b: Book, h: Hashing, r: Book, k: nat, rec: Record)
    requires Consistent(b, h) && News(b) <= k < |Olds(b)| && Olds(b)[k] in b.info
    requires ReadingTried(b, h, r, k) && rec == RecordOf(b.info[Olds(b)[k]])
    ensures ReadingTried(b, h, EnterTried(h, r, rec), k + 1)
  {
    OldsAt(b, h, k);
    TriedSlotFree(b, h, r, k);
    EnterOne(b, h, r, EnterTried(h, r, rec), k);
  }

  lemma {:induction false} TriedAreRead(b: Book, h: Hashing, start: Book, n: nat)
    requires Consistent(b, h) && n <= |Save(b).triedRecords|
    requires ReadingTried(b, h, start, News(b))
    ensures ReadingTried(b, h, LoadTried(h, start, Save(b).triedRecords, n), News(b) + n)
  {
    if n > 0 {
      TriedAreRead(b, h, start, n - 1);
      TriedRecord(b, n - 1);
      EnterTriedKeeps(b, h, LoadTried(h, start, Save(b).triedRecords, n - 1), News(b) + n - 1,
                      Save(b).triedRecords[n - 1]);
    }
  }

  // ----- the slots of the new table

  ghost predicate Before(s: Slot, bucket: int, pos: int) {
    s.bucket < bucket || (s.bucket == bucket && s.pos < pos)
  }

  /** A slot holds the number of the entry it held. */
  ghost predicate SlotKept(b: Book, r: Book, s: Slot)
    requires s in b.newTable
  {
    s in r.newTable && 0 <= r.newTable[s] < News(b) && r.newTable[s] < |Olds(b)|
      && Olds(b)[r.newTable[s]] == b.newTable[s]
  }

  /** The slots up to a position are as they were, and the others are free. */
  ghost predicate Placed(b: Book, r: Book, bucket: int, pos: int) {
    && (forall s {:trigger SlotKept(b, r, s)} :: s in b.newTable && Before(s, bucket, pos) ==> SlotKept(b, r, s))
    && (forall s {:trigger s in r.newTable} :: s in r.newTable ==> s in b.newTable && Before(s, bucket, pos))
  }

  /** A state in the middle of the new table. */
  ghost predicate Reading(b: Book, h: Hashing, r: Book, bucket: int, pos: int) {
    Entered(b, h, r, |Olds(b)|) && Placed(b, r, bucket, pos) && r.idCount == |Olds(b)|
  }

  lemma SlotsWithin(b: Book, h: Hashing, r: Book, bucket: int, pos: int, i: nat, s: Slot)
    requires Consistent(b, h) && Placed(b, r, bucket, pos) && i < News(b) && i < |Olds(b)|
    requires s in b.newTable && b.newTable[s] == Olds(b)[i] && !Before(s, bucket, pos)
    ensures |SlotsOf(r.newTable, i)| < NEW_BUCKETS_PER_ADDRESS
  {
    OldsAt(b, h, i);
    var was := SlotsOf(b.newTable, Olds(b)[i]);
    assert EntryTabled(b, h, Olds(b)[i]);
    forall x | x in SlotsOf(r.newTable, i)
      ensures x in was - {s}
    {
      assert SlotKept(b, r, x);
    }
    Smaller(SlotsOf(r.newTable, i), was - {s});
    assert was == (was - {s}) + {s};
  }

  lemma {:induction false} Smaller(a: set<Slot>, c: set<Slot>)
    requires a <= c
    ensures |a| <= |c|
  {
    if a != {} {
      var x :| x in a;
      Smaller(a - {x}, c - {x});
    }
  }

  /** The entry of a slot goes back into it. */
  lemma EnterSlotKeeps(b: Book, h: Hashing, r: Book, s: Slot)
    requires Consistent(b, h) && s in b.newTable && Reading(b, h, r, s.bucket, s.pos) && b.nNew == News(b)
    ensures Reading(b, h, EnterSlot(h, r, s.bucket, NumberOf(b, b.newTable[s])), s.bucket, s.pos + 1)
  {
    var id := b.newTable[s];
    assert NewSlotOk(b, h, s);
    assert EntryLinked(b, id);
    RefCountOfTried(b, h, id);
    NumberIsPlace(b, b.idCount, id);
    var i := NumberOf(b, id);
    assert Olds(b)[i] == id;
    assert EntryRead(b, r, i);
    SlotsWithin(b, h, r, s.bucket, s.pos, i, s);
    assert s !in r.newTable;
    var c := EnterSlot(h, r, s.bucket, i);
    assert c.newTable == r.newTable[s := i];
    EnterSlotEntered(b, h, r, c, s, i);
    EnterSlotPlaced(b, r, c, s, i);
  }

  lemma EnterSlotEntered(b: Book, h: Hashing, r: Book, c: Book, s: Slot, i: nat)
    requires Entered(b, h, r, |Olds(b)|) && i < |Olds(b)| && i in r.info && s !in r.newTable
    requires c == r.(info := r.info[i := r.info[i].(refCount := r.info[i].refCount + 1)],
                     newTable := r.newTable[s := i])
    ensures Entered(b, h, c, |Olds(b)|)
  {
    forall j: nat | j < |Olds(b)|
      ensures EntryRead(b, c, j)
    {
      assert EntryRead(b, r, j);
      SlotsGrow(r.newTable, s, i, j);
    }
  }

  lemma EnterSlotPlaced(b: Book, r: Book, c: Book, s: Slot, i: nat)
    requires s in b.newTable && Placed(b, r, s.bucket, s.pos) && c.newTable == r.newTable[s := i]
    requires i < News(b) && i < |Olds(b)| && Olds(b)[i] == b.newTable[s]
    ensures Placed(b, c, s.bucket, s.pos + 1)
  {
    forall x | x in b.newTable && Before(x, s.bucket, s.pos + 1)
      ensures SlotKept(b, c, x)
    {
      if x != s {
        assert x.bucket == s.bucket && x.pos == s.pos ==> x == s;
        assert SlotKept(b, r, x);
      }
    }
  }

  lemma PlacedOn(b: Book, r: Book, bucket: int, pos: int)
    requires Placed(b, r, bucket, pos) && Slot(bucket, pos) !in b.newTable
    ensures Placed(b, r, bucket, pos + 1)
  {
    forall x | x in b.newTable && Before(x, bucket, pos + 1)
      ensures SlotKept(b, r, x)
    {
      assert x.bucket == bucket && x.pos == pos ==> x == Slot(bucket, pos);
    }
  }

  // ----- whole buckets

  lemma {:induction false} LoadPrefix(h: Hashing, start: Book, bucket: int, list: seq<int>, more: seq<int>, n: nat)
    requires n <= |list|
    ensures LoadBucket(h, start, bucket, list + more, n) == LoadBucket(h, start, bucket, list, n)
  {
    if n > 0 {
      LoadPrefix(h, start, bucket, list, more, n - 1);
    }
  }

  lemma {:induction false} BucketIsRead(b: Book, h: Hashing, start: Book, bucket: int, n: nat)
    requires Consistent(b, h) && Reading(b, h, start, bucket, 0) && b.nNew == News(b)
    ensures var list := BucketList(b, bucket, n); Reading(b, h, LoadBucket(h, start, bucket, list, |list|), bucket, n)
  {
    if n > 0 {
      BucketIsRead(b, h, start, bucket, n - 1);
      var s, list := Slot(bucket, n - 1), BucketList(b, bucket, n - 1);
      var r := LoadBucket(h, start, bucket, list, |list|);
      if s in b.newTable {
        LoadPrefix(h, start, bucket, list, [NumberOf(b, b.newTable[s])], |list|);
        EnterSlotKeeps(b, h, r, s);
      } else {
        PlacedOn(b, r, bucket, n - 1);
        assert BucketList(b, bucket, n) == list + [] == list;
      }
    }
  }

  /** All positions of a bucket come before the next bucket. */
  lemma NextBucket(b: Book, h: Hashing, r: Book, bucket: int)
    requires Consistent(b, h) && Reading(b, h, r, bucket, BUCKET_SIZE)
    ensures Reading(b, h, r, bucket + 1, 0)
  {
    forall s | s in b.newTable && Before(s, bucket + 1, 0)
      ensures SlotKept(b, r, s)
    {
      assert NewSlotOk(b, h, s);
      assert Before(s, bucket, BUCKET_SIZE);
    }
  }

  lemma {:induction false} BucketsAreRead(b: Book, h: Hashing, start: Book, n: nat)
    requires Consistent(b, h) && Reading(b, h, start, 0, 0) && b.nNew == News(b) && n <= |Save(b).buckets|
    ensures Reading(b, h, LoadBuckets(h, start, Save(b).buckets, n), n, 0)
  {
    if n > 0 {
      BucketsAreRead(b, h, start, n - 1);
      var r := LoadBuckets(h, start, Save(b).buckets, n - 1);
      assert Save(b).buckets[n - 1] == BucketList(b, n - 1, BUCKET_SIZE);
      BucketIsRead(b, h, r, n - 1, BUCKET_SIZE);
      NextBucket(b, h, LoadBucket(h, r, n - 1, Save(b).buckets[n - 1], |Save(b).buckets[n - 1]|), n - 1);
    }
  }

  // ----- the result

  /** Two managers with the same address in every slot and the same kept record and
      reference count for every address. */
  ghost predicate Same(b: Book, r: Book) {
    && (forall s {:trigger SameNew(b, r, s)} :: s in b.newTable || s in r.newTable ==> SameNew(b, r, s))
    && (forall s {:trigger SameTried(b, r, s)} :: s in b.triedTable || s in r.triedTable ==> SameTried(b, r, s))
    && (forall a {:trigger SameAddr(b, r, a)} :: a in b.addr || a in r.addr ==> SameAddr(b, r, a))
    && r.nNew == b.nNew && r.nTried == b.nTried
  }

  ghost predicate SameEntry(e: Info, f: Info) {
    && e.address == f.address && e.source == f.source && e.lastSuccess == f.lastSuccess && e.attempts == f.attempts
    && e.refCount == f.refCount && e.inTried == f.inTried
  }

  ghost predicate SameNew(b: Book, r: Book, s: Slot) {
    && s in b.newTable && s in r.newTable && b.newTable[s] in b.info && r.newTable[s] in r.info
    && SameEntry(b.info[b.newTable[s]], r.info[r.newTable[s]])
  }

  ghost predicate SameTried(b: Book, r: Book, s: Slot) {
    && s in b.triedTable && s in r.triedTable && b.triedTable[s] in b.info && r.triedTable[s] in r.info
    && SameEntry(b.info[b.triedTable[s]], r.info[r.triedTable[s]])
  }

  ghost predicate SameAddr(b: Book, r: Book, a: NetAddr) {
    && a in b.addr && a in r.addr && b.addr[a] in b.info && r.addr[a] in r.info
    && SameEntry(b.info[b.addr[a]], r.info[r.addr[a]])
  }

  /** All slots of the new table have been read. */
  ghost predicate Complete(b: Book, h: Hashing, r: Book) {
    && Entered(b, h, r, |Olds(b)|) && r.idCount == |Olds(b)|
    && (forall s {:trigger SlotKept(b, r, s)} :: s in b.newTable ==> SlotKept(b, r, s))
    && (forall s {:trigger s in r.newTable} :: s in r.newTable ==> s in b.newTable)
  }

  lemma SlotsAreSame(b: Book, h: Hashing, r: Book, i: nat)
    requires Consistent(b, h) && Complete(b, h, r) && i < |Olds(b)|
    ensures SlotsOf(r.newTable, i) == if i < News(b) then SlotsOf(b.newTable, Olds(b)[i]) else {}
  {
    forall s
      ensures s in SlotsOf(r.newTable, i) <==> i < News(b) && s in SlotsOf(b.newTable, Olds(b)[i])
    {
      if s in b.newTable {
        assert SlotKept(b, r, s);
        var j := r.newTable[s];
        if j < i {
          OldsDistinct(b, h, j, i);
        } else if i < j {
          OldsDistinct(b, h, i, j);
        }
      }
    }
  }

  /** Number i is the entry it was read from. */
  lemma EntryIsSame(b: Book, h: Hashing, r: Book, i: nat)
    requires Consistent(b, h) && Complete(b, h, r) && i < |Olds(b)|
    ensures Olds(b)[i] in b.info && i in r.info && SameEntry(b.info[Olds(b)[i]], r.info[i])
  {
    OldsAt(b, h, i);
    assert EntryRead(b, r, i);
    SlotsAreSame(b, h, r, i);
    assert EntryTabled(b, h, Olds(b)[i]);
    RefCountOfTried(b, h, Olds(b)[i]);
  }

  lemma CompleteIsSame(b: Book, h: Hashing, r: Book)
    requires Consistent(b, h) && Complete(b, h, r)
    ensures Same(b, r)
  {
    forall s | s in b.newTable || s in r.newTable
      ensures SameNew(b, r, s)
    {
      assert SlotKept(b, r, s);
      EntryIsSame(b, h, r, r.newTable[s]);
    }
    forall s | s in b.triedTable || s in r.triedTable
      ensures SameTried(b, r, s)
    {
      TriedIsSame(b, h, r, s);
    }
    forall a | a in b.addr || a in r.addr
      ensures SameAddr(b, r, a)
    {
      AddrIsSame(b, h, r, a);
    }
  }

  lemma TriedIsSame(b: Book, h: Hashing, r: Book, s: Slot)
    requires Consistent(b, h) && Complete(b, h, r) && (s in b.triedTable || s in r.triedTable)
    ensures SameTried(b, r, s)
  {
    if s in r.triedTable {
      assert SlotRead(b, h, r.triedTable, |Olds(b)|, s);
      OldsAt(b, h, r.triedTable[s]);
      assert EntryTabled(b, h, Olds(b)[r.triedTable[s]]);
    }
    assert TriedSlotOk(b, h, s);
    var i := InOlds(b, h, b.triedTable[s]);
    OldsAt(b, h, i);
    assert TriedRead(b, h, r.triedTable, i);
    EntryIsSame(b, h, r, i);
  }

  lemma AddrIsSame(b: Book, h: Hashing, r: Book, a: NetAddr)
    requires Consistent(b, h) && Complete(b, h, r) && (a in b.addr || a in r.addr)
    ensures SameAddr(b, r, a)
  {
    if a in r.addr {
      assert AddrRead(b, r.addr, |Olds(b)|, a);
      assert EntryLinked(b, Olds(b)[r.addr[a]]);
    }
    assert AddrLinked(b, a);
    var i := InOlds(b, h, b.addr[a]);
    assert EntryRead(b, r, i);
    EntryIsSame(b, h, r, i);
  }

  // ----- the manager read back is consistent

  lemma CompleteLinked(b: Book, h: Hashing, r: Book)
    requires Consistent(b, h) && Complete(b, h, r)
    ensures Linked(r)
  {
    forall i | i in r.info
      ensures EntryLinked(r, i)
    {
      assert EntryRead(b, r, i);
    }
    forall a | a in r.addr
      ensures AddrLinked(r, a)
    {
      assert AddrRead(b, r.addr, |Olds(b)|, a);
      assert EntryRead(b, r, r.addr[a]);
    }
    forall i | 0 <= i < |r.random|
      ensures RandomLinked(r, i)
    {
      assert EntryRead(b, r, i);
    }
  }

  lemma CompleteTabled(b: Book, h: Hashing, r: Book)
    requires Consistent(b, h) && Complete(b, h, r)
    ensures Tabled(r, h)
  {
    forall s | s in r.newTable
      ensures NewSlotOk(r, h, s)
    {
      assert SlotKept(b, r, s) && NewSlotOk(b, h, s);
      EntryIsSame(b, h, r, r.newTable[s]);
    }
    forall s | s in r.triedTable
      ensures TriedSlotOk(r, h, s)
    {
      assert SlotRead(b, h, r.triedTable, |Olds(b)|, s);
      assert EntryRead(b, r, r.triedTable[s]);
    }
    forall i | i in r.info
      ensures EntryTabled(r, h, i)
    {
      EntryIsTabled(b, h, r, i);
    }
  }

  lemma EntryIsTabled(b: Book, h: Hashing, r: Book, i: nat)
    requires Consistent(b, h) && Complete(b, h, r) && i in r.info
    ensures EntryTabled(r, h, i)
  {
    EntryIsSame(b, h, r, i);
    assert EntryRead(b, r, i);
    assert EntryTabled(b, h, Olds(b)[i]);
    if i >= News(b) {
      assert TriedRead(b, h, r.triedTable, i);
    }
  }

  lemma CompleteCounts(b: Book, h: Hashing, r: Book)
    requires Consistent(b, h) && Complete(b, h, r)
    ensures Referenced(r, {}) && Drift(r) == (0, 0, 0)
  {
    ListedSizes(b, h);
    forall i | i in r.info && !r.info[i].inTried
      ensures r.info[i].refCount >= 1
    {
      EntryIsSame(b, h, r, i);
      assert EntryTabled(b, h, Olds(b)[i]);
      RefCountOfTried(b, h, Olds(b)[i]);
    }
    KindIs(b, r, h, false);
    KindIs(b, r, h, true);
  }

  ghost function Range(lo: int, hi: int): (r: set<int>)
    ensures forall i :: i in r <==> lo <= i < hi
    decreases hi - lo
  {
    if lo < hi then Range(lo, hi - 1) + {hi - 1} else {}
  }

  lemma {:induction false} RangeSize(lo: int, hi: int)
    requires lo <= hi
    ensures |Range(lo, hi)| == hi - lo
    decreases hi - lo
  {
    if lo < hi {
      RangeSize(lo, hi - 1);
    }
  }

  lemma KindIs(b: Book, r: Book, h: Hashing, tried: bool)
    requires Consistent(b, h) && Complete(b, h, r)
    ensures |if tried then Tried(r.info) else Untried(r.info)| == if tried then |Olds(b)| - News(b) else News(b)
  {
    var kind := if tried then Tried(r.info) else Untried(r.info);
    var range := if tried then Range(News(b), |Olds(b)|) else Range(0, News(b));
    forall i
      ensures i in kind <==> i in range
    {
      if 0 <= i < |Olds(b)| {
        assert EntryRead(b, r, i);
      }
    }
    assert kind == range;
    RangeSize(0, News(b));
    RangeSize(News(b), |Olds(b)|);
  }

  lemma CompleteConsistent(b: Book, h: Hashing, r: Book)
    requires Consistent(b, h) && Complete(b, h, r)
    ensures Consistent(r, h)
  {
    CompleteLinked(b, h, r);
    CompleteTabled(b, h, r);
    CompleteCounts(b, h, r);
  }

  /** A consistent manager has nothing to prune. */
  lemma {:induction false} NothingPruned(r: Book, h: Hashing, n: nat)
    requires Consistent(r, h)
    ensures Prune(r, n) == r
  {
    if n > 0 {
      NothingPruned(r, h, n - 1);
    }
  }

  /** In any linked manager pruning removes exactly the entries below the bound that are neither
      tried nor referenced. */
  lemma {:induction false} PruneRemoves(b: Book, n: nat)
    requires Linked(b)
    ensures Linked(Prune(b, n)) && Pruned(b.info, Prune(b, n).info, n)
  {
    if n > 0 {
      PruneRemoves(b, n - 1);
      PruneOneMore(b.info, Prune(b, n - 1), n - 1);
    }
  }

  lemma PruneOneMore(before: map<int, Info>, c: Book, n: nat)
    requires Linked(c) && Pruned(before, c.info, n)
    ensures var d := if CanDelete(c, n) then Delete(c, n) else c;
      Linked(d) && Pruned(before, d.info, n + 1)
  {
    if Unused(c.info, n) {
      DeleteLinked(c, n);
      PrunedOn(before, c.info, Delete(c, n).info, n);
    } else {
      PrunedOn(before, c.info, c.info, n);
    }
  }

  predicate Unused(info: map<int, Info>, id: int) {
    id in info && !info[id].inTried && info[id].refCount == 0
  }

  ghost predicate Pruned(before: map<int, Info>, after: map<int, Info>, n: nat) {
    && SameButRandom(before, after)
    && forall id :: id in after <==> id in before && !(0 <= id < n && Unused(before, id))
  }

  lemma PrunedOn(before: map<int, Info>, between: map<int, Info>, after: map<int, Info>, n: nat)
    requires Pruned(before, between, n) && SameButRandom(between, after)
    requires after.Keys == if Unused(between, n) then between.Keys - {n} else between.Keys
    ensures Pruned(before, after, n + 1)
  {
    forall id ensures id in after <==> id in before && !(0 <= id < n + 1 && Unused(before, id)) {
      assert id in after <==> id in after.Keys;
      assert id in between <==> id in before && !(0 <= id < n && Unused(before, id));
      assert id in between ==> between[id] == before[id].(randomPos := between[id].randomPos);
    }
    forall id | id in after ensures id in before && after[id] == before[id].(randomPos := after[id].randomPos) {
      assert id in between && between[id] == before[id].(randomPos := between[id].randomPos);
    }
  }

  // ----- the counters fit the tables

  function SlotNumber(s: Slot): int {
    s.bucket * BUCKET_SIZE + s.pos
  }

  /** The number of a slot that holds the entry, if there is one. */
  ghost function SlotWith(t: Table, id: int): int {
    if SlotsOf(t, id) == {} then 0 else
    var s :| s in SlotsOf(t, id);
    SlotNumber(s)
  }

  lemma {:induction false} FewerThanNumbers(t: Table, ids: set<int>, n: nat)
    requires forall id :: id in ids ==> 0 <= SlotWith(t, id) < n
    requires forall i, j {:trigger SlotWith(t, i), SlotWith(t, j)} ::
      i in ids && j in ids && SlotWith(t, i) == SlotWith(t, j) ==> i == j
    ensures |ids| <= n
  {
    if n == 0 {
      assert forall id :: id !in ids;
    } else if id :| id in ids && SlotWith(t, id) == n - 1 {
      FewerThanNumbers(t, ids - {id}, n - 1);
    } else {
      FewerThanNumbers(t, ids, n - 1);
    }
  }

  /** Entries that each have a slot within the grid are at most as many as its slots. */
  lemma FitsTable(t: Table, ids: set<int>, buckets: nat)
    requires forall s :: s in t ==> 0 <= s.bucket < buckets && 0 <= s.pos < BUCKET_SIZE
    requires forall id :: id in ids ==> SlotsOf(t, id) != {}
    ensures |ids| <= buckets * BUCKET_SIZE
  {
    forall id | id in ids
      ensures 0 <= SlotWith(t, id) < buckets * BUCKET_SIZE
      ensures exists s :: s in t && t[s] == id && SlotNumber(s) == SlotWith(t, id)
    {
      var s :| s in SlotsOf(t, id) && SlotNumber(s) == SlotWith(t, id);
      assert s in t && t[s] == id;
    }
    forall i, j | i in ids && j in ids && SlotWith(t, i) == SlotWith(t, j) ensures i == j {
      var s :| s in t && t[s] == i && SlotNumber(s) == SlotWith(t, i);
      var r :| r in t && t[r] == j && SlotNumber(r) == SlotWith(t, j);
      assert s == r;
    }
    FewerThanNumbers(t, ids, buckets * BUCKET_SIZE);
  }

  /** The refusals of the reader cannot meet what a consistent manager writes. */
  lemma NeverTooMany(b: Book, h: Hashing)
    requires Consistent(b, h)
    ensures b.nNew <= NEW_BUCKET_COUNT * BUCKET_SIZE && b.nTried <= TRIED_BUCKET_COUNT * BUCKET_SIZE
  {
    forall s | s in b.newTable ensures 0 <= s.bucket < NEW_BUCKET_COUNT && 0 <= s.pos < BUCKET_SIZE {
      assert NewSlotOk(b, h, s);
    }
    forall s | s in b.triedTable ensures 0 <= s.bucket < TRIED_BUCKET_COUNT && 0 <= s.pos < BUCKET_SIZE {
      assert TriedSlotOk(b, h, s);
    }
    forall id | id in Untried(b.info) ensures SlotsOf(b.newTable, id) != {} {
      assert EntryTabled(b, h, id);
    }
    forall id | id in Tried(b.info) ensures SlotsOf(b.triedTable, id) != {} {
      assert EntryTabled(b, h, id);
      assert h.TriedSlot(b.info[id].address) in SlotsOf(b.triedTable, id);
    }
    FitsTable(b.newTable, Untried(b.info), NEW_BUCKET_COUNT);
    FitsTable(b.triedTable, Tried(b.info), TRIED_BUCKET_COUNT);
  }

  lemma LoadIsComplete(b: Book, h: Hashing) returns (r: Book)
    requires Consistent(b, h)
    ensures Complete(b, h, r) && Load(h, Save(b)) == Some(Prune(r, r.idCount))
  {
    var p := Save(b);
    NeverTooMany(b, h);
    ListedSizes(b, h);
    RecordAt(b, b.idCount, true, 0);
    NewAreRead(b, h, News(b));
    var b1 := LoadNew(Start(b), p.newRecords, |p.newRecords|);
    var b1' := b1.(idCount := |p.newRecords|);
    SameEntered(b, h, b1, b1', News(b));
    TriedAreRead(b, h, b1', |p.triedRecords|);
    var b2 := LoadTried(h, b1', p.triedRecords, |p.triedRecords|);
    NothingPlaced(b, h, b2);
    BucketsAreRead(b, h, b2, |p.buckets|);
    r := LoadBuckets(h, b2, p.buckets, |p.buckets|);
    AllPlaced(b, h, r, |p.buckets|);
  }

  lemma SameEntered(b: Book, h: Hashing, r: Book, c: Book, n: nat)
    requires Entered(b, h, r, n) && c == r.(idCount := c.idCount)
    ensures Entered(b, h, c, n)
  {
    forall i: nat | i < n
      ensures EntryRead(b, c, i)
    {
      assert EntryRead(b, r, i);
    }
  }

  lemma NothingPlaced(b: Book, h: Hashing, r: Book)
    requires Consistent(b, h) && Entered(b, h, r, |Olds(b)|) && r.idCount == |Olds(b)| && r.newTable == map[]
    ensures Reading(b, h, r, 0, 0)
  {
    forall s | s in b.newTable
      ensures !Before(s, 0, 0)
    {
      assert NewSlotOk(b, h, s);
    }
  }

  lemma AllPlaced(b: Book, h: Hashing, r: Book, n: nat)
    requires Consistent(b, h) && Reading(b, h, r, n, 0) && n == NEW_BUCKET_COUNT
    ensures Complete(b, h, r)
  {
    forall s | s in b.newTable
      ensures SlotKept(b, r, s)
    {
      assert NewSlotOk(b, h, s);
      assert Before(s, n, 0);
    }
  }

  /** Writing a consistent manager and reading it into a fresh one gives a consistent
      manager with the same addresses in all slots and the same reference counts. */
  lemma LoadSave(b: Book, h: Hashing)
    requires Consistent(b, h)
    ensures Load(h, Save(b)).Some?
    ensures Consistent(Load(h, Save(b)).value, h) && Same(b, Load(h, Save(b)).value)
  {
    var r := LoadIsComplete(b, h);
    CompleteConsistent(b, h, r);
    CompleteIsSame(b, h, r);
    NothingPruned(r, h, r.idCount);
  }
}

/** The address manager on disk: the records of its entries in the order of their ids,
    and for every bucket of the "new" table the numbers of the entries in it. */
module AddrPeersModel {
  import opened AddrModel
  import opened Wrappers

  /** What is kept of an entry. */
  datatype Record = Record(address: Address, source: NetAddr, lastSuccess: int, attempts: int)

  datatype Peers = Peers(nNew: int, nTried: int, newRecords: seq<Record>, triedRecords: seq<Record>,
                         buckets: seq<seq<int>>)

  function RecordOf(e: Info): Record {
    Record(e.address, e.source, e.lastSuccess, e.attempts)
  }

  function InfoOf(r: Record, inTried: bool, randomPos: int): Info {
    Info(r.address, r.source, 0, 0, r.lastSuccess, r.attempts, 0, inTried, randomPos)
  }

  // ----- writing

  predicate Wanted(b: Book, id: int, tried: bool) {
    id in b.info && if tried then b.info[id].inTried else b.info[id].refCount != 0
  }

  /** The ids below a bound that are referenced from the new table, or tried, in order. */
  function Listed(b: Book, n: nat, tried: bool): seq<int> {
    if n == 0 then []
    else Listed(b, n - 1, tried) + if Wanted(b, n - 1, tried) then [n - 1] else []
  }

  /** Their records. */
  function Records(b: Book, n: nat, tried: bool): seq<Record> {
    if n == 0 then []
    else Records(b, n - 1, tried) + if Wanted(b, n - 1, tried) then [RecordOf(b.info[n - 1])] else []
  }

  lemma {:induction false} RecordAt(b: Book, n: nat, tried: bool, i: nat)
    ensures |Records(b, n, tried)| == |Listed(b, n, tried)|
    ensures i < |Listed(b, n, tried)| ==>
      Listed(b, n, tried)[i] in b.info && Records(b, n, tried)[i] == RecordOf(b.info[Listed(b, n, tried)[i]])
  {
    if n > 0 {
      RecordAt(b, n - 1, tried, i);
    }
  }

  /** The number an id gets: how many ids before it are listed. */
  function NumberOf(b: Book, id: int): nat {
    if id <= 0 then 0 else |Listed(b, id, false)|
  }

  function BucketList(b: Book, bucket: int, n: nat): seq<int> {
    if n == 0 then []
    else
      var s := Slot(bucket, n - 1);
      BucketList(b, bucket, n - 1) + if s in b.newTable then [NumberOf(b, b.newTable[s])] else []
  }

  lemma {:induction false} ListedIs(b: Book, n: nat, tried: bool, id: int)
    ensures id in Listed(b, n, tried) <==> 0 <= id < n && Wanted(b, id, tried)
  {
    if n > 0 {
      ListedIs(b, n - 1, tried, id);
    }
  }

  lemma {:induction false} ListedRises(b: Book, n: nat, tried: bool, i: nat, j: nat)
    requires i < j < |Listed(b, n, tried)|
    ensures Listed(b, n, tried)[i] < Listed(b, n, tried)[j]
  {
    var rest := Listed(b, n - 1, tried);
    if j < |rest| {
      ListedRises(b, n - 1, tried, i, j);
    } else {
      ListedIs(b, n - 1, tried, rest[i]);
    }
  }

  lemma {:induction false} ListedPrefix(b: Book, m: nat, n: nat, tried: bool)
    requires m <= n
    ensures Listed(b, m, tried) <= Listed(b, n, tried)
  {
    if m < n {
      ListedPrefix(b, m, n - 1, tried);
    }
  }

  /** The number of an id is its place in the list. */
  lemma NumberIsPlace(b: Book, n: nat, id: int)
    requires 0 <= id < n && Wanted(b, id, false)
    ensures NumberOf(b, id) < |Listed(b, n, false)| && Listed(b, n, false)[NumberOf(b, id)] == id
  {
    ListedPrefix(b, id + 1, n, false);
    assert Listed(b, id + 1, false) == Listed(b, id, false) + [id];
  }

  function Save(b: Book): Peers {
    Peers(b.nNew, b.nTried, Records(b, b.idCount, false), Records(b, b.idCount, true),
          seq(NEW_BUCKET_COUNT, k => BucketList(b, k, BUCKET_SIZE)))
  }

  // ----- reading

  function EnterNew(b: Book, r: Record): Book {
    var n := |b.random|;
    b.(info := b.info[n := InfoOf(r, false, n)], addr := b.addr[r.address.net := n], random := b.random + [n])
  }

  function LoadNew(start: Book, records: seq<Record>, n: nat): Book
    requires n <= |records|
  {
    if n == 0 then start else EnterNew(LoadNew(start, records, n - 1), records[n - 1])
  }

  /** A tried entry takes its slot, or is lost when another has it. */
  function EnterTried(h: Hashing, b: Book, r: Record): Book {
    var s, id := h.TriedSlot(r.address), b.idCount;
    if s in b.triedTable then b.(nTried := b.nTried - 1)
    else
      b.(info := b.info[id := InfoOf(r, true, |b.random|)], addr := b.addr[r.address.net := id],
         random := b.random + [id], triedTable := b.triedTable[s := id], idCount := id + 1)
  }

  function LoadTried(h: Hashing, start: Book, records: seq<Record>, n: nat): Book
    requires n <= |records|
  {
    if n == 0 then start else EnterTried(h, LoadTried(h, start, records, n - 1), records[n - 1])
  }

  /** A listed entry takes its slot in the bucket, if that is free and it may have one more. */
  function EnterSlot(h: Hashing, b: Book, bucket: int, index: int): Book {
    if 0 <= index < b.nNew && index in b.info then
      var e := b.info[index];
      var s := h.NewSlot(bucket, e.address);
      if s !in b.newTable && e.refCount < NEW_BUCKETS_PER_ADDRESS then
        b.(info := b.info[index := e.(refCount := e.refCount + 1)], newTable := b.newTable[s := index])
      else b
    else b
  }

  function LoadBucket(h: Hashing, start: Book, bucket: int, list: seq<int>, n: nat): Book
    requires n <= |list|
  {
    if n == 0 then start else EnterSlot(h, LoadBucket(h, start, bucket, list, n - 1), bucket, list[n - 1])
  }

  function LoadBuckets(h: Hashing, start: Book, buckets: seq<seq<int>>, n: nat): Book
    requires n <= |buckets|
  {
    if n == 0 then start
    else LoadBucket(h, LoadBuckets(h, start, buckets, n - 1), n - 1, buckets[n - 1], |buckets[n - 1]|)
  }

  /** Entries without a reference that are not tried are deleted, in the order of ids. */
  function Prune(b: Book, n: nat): Book {
    if n == 0 then b
    else
      var c := Prune(b, n - 1);
      if CanDelete(c, n - 1) then Delete(c, n - 1) else c
  }

  /** Counters beyond the size of the tables are refused. */
  predicate TooMany(p: Peers) {
    p.nNew > NEW_BUCKET_COUNT * BUCKET_SIZE || p.nTried > TRIED_BUCKET_COUNT * BUCKET_SIZE
  }

  function Load(h: Hashing, p: Peers): Option<Book> {
    if TooMany(p) then None else
    var b0 := EMPTY_BOOK.(nNew := p.nNew, nTried := p.nTried);
    var b1 := LoadNew(b0, p.newRecords, |p.newRecords|);
    var b2 := LoadTried(h, b1.(idCount := |p.newRecords|), p.triedRecords, |p.triedRecords|);
    var b3 := LoadBuckets(h, b2, p.buckets, |p.buckets|);
    Some(Prune(b3, b3.idCount))
  }

  // ----- whatever the file says

  /** Of the tried records those that took no slot are counted as lost. */
  lemma {:induction false} TriedCounted(h: Hashing, start: Book, records: seq<Record>, n: nat)
    requires n <= |records|
    ensures var r := LoadTried(h, start, records, n);
      |r.triedTable| - |start.triedTable| + start.nTried - r.nTried == n
  {
    if n > 0 {
      TriedCounted(h, start, records, n - 1);
      OneCounted(h, LoadTried(h, start, records, n - 1), records[n - 1]);
    }
  }

  lemma OneCounted(h: Hashing, b: Book, r: Record)
    ensures |EnterTried(h, b, r).triedTable| - EnterTried(h, b, r).nTried == |b.triedTable| - b.nTried + 1
  {
    var t, s := b.triedTable, h.TriedSlot(r.address);
    if s !in t {
      OneMore(t, s, b.idCount);
    }
  }

  lemma OneMore(t: Table, s: Slot, id: int)
    requires s !in t
    ensures |t[s := id]| == |t| + 1
  {
    assert t[s := id].Keys == t.Keys + {s};
  }

  /** Reference counts within bounds, and no slot of `start` overwritten. */
  ghost predicate SlotsGrown(start: Book, b: Book) {
    && (forall id :: id in b.info ==> 0 <= b.info[id].refCount <= 8)
    && (forall s :: s in start.newTable ==> s in b.newTable && b.newTable[s] == start.newTable[s])
  }

  lemma {:induction false} BucketBounded(h: Hashing, start: Book, begin: Book, bucket: int, list: seq<int>, n: nat)
    requires n <= |list| && SlotsGrown(start, begin)
    ensures SlotsGrown(start, LoadBucket(h, begin, bucket, list, n))
  {
    if n > 0 {
      BucketBounded(h, start, begin, bucket, list, n - 1);
    }
  }

  /** No list of slots gives an entry more than eight references or a slot a second entry. */
  lemma {:induction false} BucketsBounded(h: Hashing, start: Book, buckets: seq<seq<int>>, n: nat)
    requires n <= |buckets| && forall id :: id in start.info ==> 0 <= start.info[id].refCount <= 8
    ensures SlotsGrown(start, LoadBuckets(h, start, buckets, n))
  {
    if n > 0 {
      BucketsBounded(h, start, buckets, n - 1);
      BucketBounded(h, start, LoadBuckets(h, start, buckets, n - 1), n - 1, buckets[n - 1], |buckets[n - 1]|);
    }
  }
}

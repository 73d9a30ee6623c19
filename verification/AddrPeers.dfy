/** Writing an address manager and reading it back, loop by loop. */
module AddrPeers {
  import opened AddrModel
  import opened AddrPeersModel
  import opened AddrPeersProof
  import Manager = AddrMan

  // ----- writing

  /** What has been written for the ids below a bound. */
  ghost predicate WrittenBelow(b: Book, n: nat, tried: bool, records: seq<Record>, numbers: map<int, int>) {
    && records == Records(b, n, tried)
    && (!tried ==>
          forall x {:trigger x in numbers} :: x in b.info && 0 <= x < n ==>
            x in numbers && numbers[x] == NumberOf(b, x))
  }

  /** One id: it gets the next number, and its record is written if it is wanted. The
      counter is never too small for that. */
  method WriteOne(ghost b: Book, ghost h: Hashing, info: map<int, Info>, id: nat, tried: bool, count: int,
                  records: seq<Record>, numbers: map<int, int>) returns (records': seq<Record>, numbers': map<int, int>)
    requires Consistent(b, h) && b.info == info && id < b.idCount && WrittenBelow(b, id, tried, records, numbers)
    requires count == if tried then b.nTried else b.nNew
    ensures WrittenBelow(b, id + 1, tried, records', numbers')
  {
    records', numbers' := records, numbers;
    RecordAt(b, id, tried, 0);
    if id in info {
      numbers' := numbers[id := |records|];
      if (if tried then info[id].inTried else info[id].refCount != 0) {
        RoomForOne(b, h, id, tried);
        assert |records| != count;
        records' := records + [RecordOf(info[id])];
      }
    }
  }

  /** The records of the new or of the tried entries in the order of ids, and the number
      that every id stands for. */
  method WriteRecords(m: Manager.AddrMan, tried: bool) returns (records: seq<Record>, numbers: map<int, int>)
    requires Consistent(m.State(), m.h)
    ensures WrittenBelow(m.State(), m.nIdCount, tried, records, numbers)
  {
    records, numbers := [], map[];
    var id: nat := 0;
    while id < m.nIdCount
      invariant id <= m.nIdCount && WrittenBelow(m.State(), id, tried, records, numbers)
    {
      records, numbers := WriteOne(m.State(), m.h, m.mapInfo, id, tried, if tried then m.nTried else m.nNew, records,
                                   numbers);
      id := id + 1;
    }
  }

  /** Before an entry is written fewer than the counter says have been. */
  lemma RoomForOne(b: Book, h: Hashing, id: nat, tried: bool)
    requires Consistent(b, h) && id < b.idCount && Wanted(b, id, tried)
    ensures |Listed(b, id, tried)| < if tried then b.nTried else b.nNew
  {
    ListedSizes(b, h);
    ListedPrefix(b, id + 1, b.idCount, tried);
  }

  method WriteBucket(m: Manager.AddrMan, bucket: int, numbers: map<int, int>) returns (list: seq<int>)
    requires m.Valid() && Consistent(m.State(), m.h) && 0 <= bucket < NEW_BUCKET_COUNT
    requires WrittenBelow(m.State(), m.nIdCount, false, Records(m.State(), m.nIdCount, false), numbers)
    ensures list == BucketList(m.State(), bucket, BUCKET_SIZE)
  {
    list := [];
    var i: nat := 0;
    while i < BUCKET_SIZE
      invariant i <= BUCKET_SIZE && list == BucketList(m.State(), bucket, i)
    {
      var id := m.vvNew.Get(Slot(bucket, i));
      if id != -1 {
        assert NewSlotOk(m.State(), m.h, Slot(bucket, i)) && EntryLinked(m.State(), id);
        list := list + [numbers[id]];
      }
      i := i + 1;
    }
  }

  method Serialize(m: Manager.AddrMan) returns (p: Peers)
    requires m.Valid() && Consistent(m.State(), m.h)
    ensures p == Save(m.State())
  {
    var news, numbers := WriteRecords(m, false);
    var trieds, _ := WriteRecords(m, true);
    var buckets: seq<seq<int>> := [];
    while |buckets| < NEW_BUCKET_COUNT
      invariant |buckets| <= NEW_BUCKET_COUNT
      invariant forall k :: 0 <= k < |buckets| ==> buckets[k] == BucketList(m.State(), k, BUCKET_SIZE)
    {
      var list := WriteBucket(m, |buckets|, numbers);
      buckets := buckets + [list];
    }
    p := Peers(m.nNew, m.nTried, news, trieds, buckets);
    assert buckets == Save(m.State()).buckets;
  }

  // ----- reading

  method ReadNew(m: Manager.AddrMan, records: seq<Record>)
    requires m.Valid() && m.vRandom == []
    modifies m
    ensures m.Valid() && m.State() == LoadNew(old(m.State()), records, |records|)
  {
    var n: nat := 0;
    while n < |records|
      invariant n <= |records| && m.Valid() && |m.vRandom| == n
      invariant m.State() == LoadNew(old(m.State()), records, n)
    {
      var r := records[n];
      m.mapInfo := m.mapInfo[n := InfoOf(r, false, |m.vRandom|)];
      m.mapAddr := m.mapAddr[r.address.net := n];
      m.vRandom := m.vRandom + [n];
      n := n + 1;
    }
  }

  method ReadTried(m: Manager.AddrMan, records: seq<Record>)
    requires m.Valid()
    modifies m.Repr()
    ensures m.Valid() && m.State() == LoadTried(m.h, old(m.State()), records, |records|)
  {
    var n: nat := 0;
    while n < |records|
      invariant n <= |records| && m.Valid() && m.State() == LoadTried(m.h, old(m.State()), records, n)
    {
      ReadTriedRecord(m, records[n]);
      n := n + 1;
    }
  }

  /** An entry in its own slot, unless that is taken. */
  method ReadTriedRecord(m: Manager.AddrMan, r: Record)
    requires m.Valid()
    modifies m.Repr()
    ensures m.Valid() && m.State() == EnterTried(m.h, old(m.State()), r)
  {
    var s := m.h.TriedSlot(r.address);
    var there := m.vvTried.Get(s);
    if there != -1 {
      m.nTried := m.nTried - 1;
      return;
    }
    m.mapInfo := m.mapInfo[m.nIdCount := InfoOf(r, true, |m.vRandom|)];
    m.mapAddr := m.mapAddr[r.address.net := m.nIdCount];
    m.vRandom := m.vRandom + [m.nIdCount];
    m.vvTried.Set(s, m.nIdCount);
    m.nIdCount := m.nIdCount + 1;
  }

  method ReadSlot(m: Manager.AddrMan, bucket: int, index: int)
    requires m.Valid() && 0 <= bucket < NEW_BUCKET_COUNT
    modifies m.Repr()
    ensures m.Valid() && m.State() == EnterSlot(m.h, old(m.State()), bucket, index)
  {
    if 0 <= index < m.nNew && index in m.mapInfo {
      var e := m.mapInfo[index];
      var s := m.h.NewSlot(bucket, e.address);
      var there := m.vvNew.Get(s);
      if there == -1 && e.refCount < NEW_BUCKETS_PER_ADDRESS {
        m.mapInfo := m.mapInfo[index := e.(refCount := e.refCount + 1)];
        m.vvNew.Set(s, index);
      }
    }
  }

  method ReadBucket(m: Manager.AddrMan, bucket: int, list: seq<int>)
    requires m.Valid() && 0 <= bucket < NEW_BUCKET_COUNT
    modifies m.Repr()
    ensures m.Valid() && m.State() == LoadBucket(m.h, old(m.State()), bucket, list, |list|)
  {
    var n: nat := 0;
    while n < |list|
      invariant n <= |list| && m.Valid() && m.State() == LoadBucket(m.h, old(m.State()), bucket, list, n)
    {
      ReadSlot(m, bucket, list[n]);
      n := n + 1;
    }
  }

  method ReadBuckets(m: Manager.AddrMan, buckets: seq<seq<int>>)
    requires m.Valid() && |buckets| == NEW_BUCKET_COUNT
    modifies m.Repr()
    ensures m.Valid() && m.State() == LoadBuckets(m.h, old(m.State()), buckets, |buckets|)
  {
    var k: nat := 0;
    while k < |buckets|
      invariant k <= |buckets| && m.Valid() && m.State() == LoadBuckets(m.h, old(m.State()), buckets, k)
    {
      ReadBucket(m, k, buckets[k]);
      k := k + 1;
    }
  }

  method PruneLost(m: Manager.AddrMan)
    requires m.Valid()
    modifies m
    ensures m.Valid() && m.State() == Prune(old(m.State()), old(m.nIdCount))
  {
    var id: nat := 0;
    while id < m.nIdCount
      invariant id <= m.nIdCount == old(m.nIdCount) && m.Valid() && m.State() == Prune(old(m.State()), id)
    {
      PruneOne(m, id);
      id := id + 1;
    }
  }

  /** An entry that is neither tried nor referenced is deleted. */
  method PruneOne(m: Manager.AddrMan, id: int)
    requires m.Valid()
    modifies m
    ensures m.Valid()
    ensures m.State() == if CanDelete(old(m.State()), id) then Delete(old(m.State()), id) else old(m.State())
    ensures m.nIdCount == old(m.nIdCount)
  {
    if CanDelete(Book(m.nIdCount, m.mapInfo, m.mapAddr, m.vRandom, m.nTried, map[], m.nNew, map[], m.nLastGood), id) {
      m.Delete(id);
    }
  }

  /** A fresh manager filled from what was written. */
  method Unserialize(m: Manager.AddrMan, p: Peers) returns (ok: bool)
    requires m.Valid() && m.State() == EMPTY_BOOK && |p.buckets| == NEW_BUCKET_COUNT
    modifies m.Repr()
    ensures m.Valid() && (ok <==> Load(m.h, p).Some?)
    ensures ok ==> m.State() == Load(m.h, p).value
    ensures !ok ==> m.State() == EMPTY_BOOK.(nNew := p.nNew, nTried := p.nTried)
  {
    m.nNew, m.nTried := p.nNew, p.nTried;
    if p.nNew > NEW_BUCKET_COUNT * BUCKET_SIZE {
      return false;
    }
    if p.nTried > TRIED_BUCKET_COUNT * BUCKET_SIZE {
      return false;
    }
    ReadNew(m, p.newRecords);
    m.nIdCount := |p.newRecords|;
    ReadTried(m, p.triedRecords);
    ReadBuckets(m, p.buckets);
    PruneLost(m);
    ok := true;
  }

  /** A manager written and read into a fresh one with the same key: the reader
      refuses nothing that was written. */
  method Restart(m: Manager.AddrMan) returns (copy: Manager.AddrMan)
    requires m.Valid() && Consistent(m.State(), m.h)
    ensures copy.Valid() && Consistent(copy.State(), m.h) && Same(m.State(), copy.State())
  {
    var p := Serialize(m);
    copy := new Manager.AddrMan(m.h);
    LoadSave(m.State(), m.h);
    var ok := Unserialize(copy, p);
    assert ok;
  }
}

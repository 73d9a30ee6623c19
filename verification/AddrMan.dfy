/** CAddrMan as an object that updates its maps, vector and bucket arrays in place. */
module AddrMan {
  import opened AddrModel
  import opened Numbers
  import opened Wrappers
  import opened AddrOps

  /** A fixed grid of bucket slots; -1 marks an empty one. */
  class BucketTable {
    const cells: array2<int>
    ghost var slots: Table

    ghost predicate Valid()
      reads this, cells
    {
      && (forall s {:trigger Inside(s)} :: s in slots ==> Inside(s) && slots[s] != -1)
      && (forall b, i {:trigger cells[b, i]} :: 0 <= b < cells.Length0 && 0 <= i < cells.Length1 ==>
            cells[b, i] == if Slot(b, i) in slots then slots[Slot(b, i)] else -1)
    }

    predicate Inside(s: Slot) {
      0 <= s.bucket < cells.Length0 && 0 <= s.pos < cells.Length1
    }

    constructor (buckets: nat, size: nat)
      ensures Valid() && slots == map[] && fresh(cells)
      ensures cells.Length0 == buckets && cells.Length1 == size
    {
      cells := new int[buckets, size]((_, _) => -1);
      slots := map[];
    }

    method Get(s: Slot) returns (x: int)
      requires Valid() && Inside(s)
      ensures x == if s in slots then slots[s] else -1
      ensures s in slots <==> x != -1
    {
      x := cells[s.bucket, s.pos];
    }

    method Set(s: Slot, x: int)
      requires Valid() && Inside(s)
      modifies this, cells
      ensures Valid()
      ensures slots == if x == -1 then old(slots) - {s} else old(slots)[s := x]
    {
      cells[s.bucket, s.pos] := x;
      slots := if x == -1 then slots - {s} else slots[s := x];
    }
  }

  function HitsBelow(b: Book, h: Hashing, id: int, k: int): set<Slot>
    requires id in b.info
  {
    set s | s in Hits(b, h, id) && s.bucket < k
  }

  lemma HitsNext(b: Book, h: Hashing, id: int, k: int)
    requires id in b.info && 0 <= k < NEW_BUCKET_COUNT
    ensures var s := h.NewSlot(k, b.info[id].address);
      && s !in HitsBelow(b, h, id, k)
      && HitsBelow(b, h, id, k + 1) ==
           HitsBelow(b, h, id, k) + if s in b.newTable && b.newTable[s] == id then {s} else {}
  {
  }

  lemma MinusMore(t: Table, gone: set<Slot>, s: Slot)
    ensures t - (gone + {s}) == (t - gone) - {s}
  {
  }

  lemma HitsStep(b: Book, h: Hashing, id: int, k: int)
    requires id in b.info && 0 <= k < NEW_BUCKET_COUNT
    ensures var s := h.NewSlot(k, b.info[id].address);
      var t := b.newTable - HitsBelow(b, h, id, k);
      var hit := s in t && t[s] == id;
      && b.newTable - HitsBelow(b, h, id, k + 1) == (if hit then t - {s} else t)
      && |HitsBelow(b, h, id, k + 1)| == |HitsBelow(b, h, id, k)| + if hit then 1 else 0
  {
    HitsNext(b, h, id, k);
    MinusMore(b.newTable, HitsBelow(b, h, id, k), h.NewSlot(k, b.info[id].address));
  }

  function Fewer(e: Info, n: int): Info {
    e.(refCount := e.refCount - n)
  }

  lemma HitsEnds(b: Book, h: Hashing, id: int)
    requires id in b.info
    ensures HitsBelow(b, h, id, 0) == {} && HitsBelow(b, h, id, NEW_BUCKET_COUNT) == Hits(b, h, id)
    ensures b.newTable - HitsBelow(b, h, id, 0) == b.newTable
    ensures b.info[id := Fewer(b.info[id], 0)] == b.info
  {
  }

  ghost predicate AddressesOf(info: map<int, Info>, ids: seq<int>, addresses: seq<Address>) {
    |addresses| == |ids| && forall i :: 0 <= i < |ids| ==> ids[i] in info && addresses[i] == info[ids[i]].address
  }

  ghost predicate SameAddresses(before: map<int, Info>, after: map<int, Info>) {
    forall i :: i in before ==> i in after && after[i].address == before[i].address
  }

  lemma AddressesMore(before: map<int, Info>, after: map<int, Info>, ids: seq<int>, addresses: seq<Address>, id: int)
    requires AddressesOf(before, ids, addresses) && SameAddresses(before, after) && id in after
    ensures AddressesOf(after, ids, addresses)
    ensures AddressesOf(after, ids + [id], addresses + [after[id].address])
  {
    forall i | 0 <= i < |ids| ensures ids[i] in after && addresses[i] == after[ids[i]].address {
      var x := ids[i];
      assert x in before && before[x].address == addresses[i];
      assert x in after;
    }
  }

  class AddrMan {
    const h: Hashing
    const vvTried: BucketTable
    const vvNew: BucketTable
    var nIdCount: nat
    var mapInfo: map<int, Info>
    var mapAddr: map<NetAddr, int>
    var vRandom: seq<int>
    var nTried: int
    var nNew: int
    var nLastGood: int

    ghost predicate Valid()
      reads vvTried, vvTried.cells, vvNew, vvNew.cells
    {
      && vvTried.cells.Length0 == TRIED_BUCKET_COUNT && vvTried.cells.Length1 == BUCKET_SIZE
      && vvNew.cells.Length0 == NEW_BUCKET_COUNT && vvNew.cells.Length1 == BUCKET_SIZE
      && vvTried != vvNew && vvTried.cells != vvNew.cells
      && vvTried.Valid() && vvNew.Valid()
    }

    ghost function Repr(): set<object> {
      {this, vvTried, vvTried.cells, vvNew, vvNew.cells}
    }

    ghost function State(): Book
      reads this, vvTried, vvNew
    {
      Book(nIdCount, mapInfo, mapAddr, vRandom, nTried, vvTried.slots, nNew, vvNew.slots, nLastGood)
    }

    /** The constructor runs Clear on an object whose maps are empty. */
    constructor (h: Hashing)
      ensures Valid() && this.h == h && State() == EMPTY_BOOK
      ensures fresh(Repr())
    {
      this.h := h;
      vvTried := new BucketTable(TRIED_BUCKET_COUNT, BUCKET_SIZE);
      vvNew := new BucketTable(NEW_BUCKET_COUNT, BUCKET_SIZE);
      mapInfo, mapAddr := map[], map[];
      vRandom := [];
      nIdCount, nTried, nNew, nLastGood := 0, 0, 0, 1;
    }

    method SwapRandom(i: int, j: int)
      requires CanSwap(State(), i, j)
      modifies this`mapInfo, this`vRandom
      ensures State() == AddrModel.SwapRandom(old(State()), i, j)
    {
      if i == j {
        return;
      }
      var id1, id2 := vRandom[i], vRandom[j];
      mapInfo := mapInfo[id1 := mapInfo[id1].(randomPos := j)];
      mapInfo := mapInfo[id2 := mapInfo[id2].(randomPos := i)];
      vRandom := vRandom[i := id2];
      vRandom := vRandom[j := id1];
    }

    method Delete(id: int)
      requires CanDelete(State(), id)
      modifies this
      ensures State() == AddrModel.Delete(old(State()), id)
    {
      SwapRandom(mapInfo[id].randomPos, |vRandom| - 1);
      vRandom := vRandom[..|vRandom| - 1];
      mapAddr := mapAddr - {mapInfo[id].address.net};
      mapInfo := mapInfo - {id};
      nNew := nNew - 1;
    }

    method ClearNew(s: Slot)
      requires Valid() && vvNew.Inside(s) && CanClear(State(), s)
      modifies this, vvNew, vvNew.cells
      ensures Valid() && State() == AddrModel.ClearNew(old(State()), s)
    {
      var id := vvNew.Get(s);
      if id != -1 {
        mapInfo := mapInfo[id := mapInfo[id].(refCount := mapInfo[id].refCount - 1)];
        vvNew.Set(s, -1);
        if mapInfo[id].refCount == 0 {
          Delete(id);
        }
      }
    }

    /** One turn of the first loop of MakeTried. */
    method DropRef(id: int, s: Slot)
      requires Valid() && id in mapInfo && 0 <= id && vvNew.Inside(s)
      modifies this`mapInfo, vvNew, vvNew.cells
      ensures Valid()
      ensures var hit := s in old(vvNew.slots) && old(vvNew.slots)[s] == id;
        && vvNew.slots == (if hit then old(vvNew.slots) - {s} else old(vvNew.slots))
        && mapInfo == if hit then old(mapInfo)[id := Fewer(old(mapInfo)[id], 1)] else old(mapInfo)
    {
      var x := vvNew.Get(s);
      if x == id {
        vvNew.Set(s, -1);
        mapInfo := mapInfo[id := mapInfo[id].(refCount := mapInfo[id].refCount - 1)];
      }
    }

    /** The first loop of MakeTried: out of all new buckets. */
    method DropRefs(id: int)
      requires Valid() && id in mapInfo && 0 <= id
      modifies this`mapInfo, this`nNew, vvNew, vvNew.cells
      ensures Valid() && State() == AddrModel.DropRefs(old(State()), h, id)
    {
      ghost var b := State();
      HitsEnds(b, h, id);
      nNew := nNew - 1;
      for bucket := 0 to NEW_BUCKET_COUNT
        invariant Valid() && nNew == b.nNew - 1
        invariant vvNew.slots == b.newTable - HitsBelow(b, h, id, bucket)
        invariant mapInfo == b.info[id := Fewer(b.info[id], |HitsBelow(b, h, id, bucket)|)]
      {
        HitsStep(b, h, id, bucket);
        DropRef(id, h.NewSlot(bucket, mapInfo[id].address));
      }
    }

    /** Makes room in the tried table; the entry there goes back to the new table. */
    method Evict(s: Slot)
      requires Valid() && vvTried.Inside(s) && CanEvict(State(), h, s)
      modifies Repr()
      ensures Valid() && State() == AddrModel.Evict(old(State()), h, s)
    {
      var id := vvTried.Get(s);
      if id != -1 {
        LeaveTried(id, s);
        var home := h.NewSlot(h.NewBucket(mapInfo[id].address, mapInfo[id].source), mapInfo[id].address);
        ClearNew(home);
        GoHome(id, home);
      }
    }

    method LeaveTried(id: int, s: Slot)
      requires Valid() && vvTried.Inside(s) && s in vvTried.slots && vvTried.slots[s] == id && id in mapInfo
      modifies this`mapInfo, this`nTried, vvTried, vvTried.cells
      ensures Valid() && State() == Untry(old(State()), s)
    {
      mapInfo := mapInfo[id := mapInfo[id].(inTried := false)];
      vvTried.Set(s, -1);
      nTried := nTried - 1;
    }

    method GoHome(id: int, home: Slot)
      requires Valid() && id in mapInfo && id != -1 && vvNew.Inside(home)
      modifies this`mapInfo, this`nNew, vvNew, vvNew.cells
      ensures Valid()
      ensures State() == old(State().(info := mapInfo[id := mapInfo[id].(refCount := 1)],
                                      newTable := vvNew.slots[home := id], nNew := nNew + 1))
    {
      mapInfo := mapInfo[id := mapInfo[id].(refCount := 1)];
      vvNew.Set(home, id);
      nNew := nNew + 1;
    }

    method MakeTried(id: int)
      requires Valid() && 0 <= id && CanMakeTried(State(), h, id)
      modifies Repr()
      ensures Valid() && State() == AddrModel.MakeTried(old(State()), h, id)
    {
      var s := h.TriedSlot(mapInfo[id].address);
      DropRefs(id);
      Evict(s);
      vvTried.Set(s, id);
      nTried := nTried + 1;
      mapInfo := mapInfo[id := mapInfo[id].(inTried := true)];
    }

    /** Looks for a new bucket that holds the entry, from a random one on. */
    method FindBucket(id: int, start: nat) returns (bucket: int)
      requires Valid() && id in mapInfo && 0 <= id && start < NEW_BUCKET_COUNT
      ensures bucket == -1 <==> Lost(State(), h, id)
      ensures bucket != -1 ==> h.NewSlot(bucket, mapInfo[id].address) in Hits(State(), h, id)
    {
      var a := mapInfo[id].address;
      for n := 0 to NEW_BUCKET_COUNT
        invariant forall k :: start <= k < start + n ==> h.NewSlot(k % NEW_BUCKET_COUNT, a) !in Hits(State(), h, id)
      {
        bucket := (n + start) % NEW_BUCKET_COUNT;
        var x := vvNew.Get(h.NewSlot(bucket, a));
        if x == id {
          assert h.NewSlot(bucket, a) in Hits(State(), h, id);
          return;
        }
      }
      forall i | 0 <= i < NEW_BUCKET_COUNT ensures h.NewSlot(i, a) !in Hits(State(), h, id) {
        var k := if i >= start then i else i + NEW_BUCKET_COUNT;
        assert k % NEW_BUCKET_COUNT == i;
      }
      bucket := -1;
    }

    method Good(net: NetAddr, port: nat, time: int, start: nat)
      requires Valid() && Consistent(State(), h) && time > 0 && start < NEW_BUCKET_COUNT
      modifies Repr()
      ensures Valid() && Consistent(State(), h)
      ensures State() == AddrOps.Good(old(State()), h, net, port, time)
    {
      ghost var b := State();
      GoodKeeps(b, h, net, port, time);
      nLastGood := time;
      var found := FindEntry(net, port);
      if found == None {
        return;
      }
      MarkKeeps(b, h, found.value, time);
      GoodEntry(found.value, time, start);
    }

    /** A known entry is marked and, unless it is tried already, moved. */
    method GoodEntry(id: int, time: int, start: nat)
      requires Valid() && id in mapInfo && time > 0 && start < NEW_BUCKET_COUNT
      requires Consistent(State().(info := mapInfo[id := MarkGood(mapInfo[id], time)]), h)
      modifies Repr()
      ensures Valid()
      ensures var d := old(State().(info := mapInfo[id := MarkGood(mapInfo[id], time)]));
        if d.info[id].inTried then State() == d
        else !Lost(d, h, id) && CanMakeTried(d, h, id) && State() == AddrModel.MakeTried(d, h, id)
    {
      mapInfo := mapInfo[id := mapInfo[id].(lastSuccess := time, lastTry := time, attempts := 0)];
      if mapInfo[id].inTried {
        return;
      }
      Promote(id, start);
    }

    /** The rest of Good: no exit is taken between the search and the move. */
    method Promote(id: int, start: nat)
      requires Valid() && Consistent(State(), h) && start < NEW_BUCKET_COUNT
      requires id in mapInfo && !mapInfo[id].inTried && mapInfo[id].lastSuccess != 0
      modifies Repr()
      ensures Valid() && CanMakeTried(old(State()), h, id) && !Lost(old(State()), h, id)
      ensures State() == AddrModel.MakeTried(old(State()), h, id)
    {
      NeverLost(State(), h, id);
      MakeTriedKeeps(State(), h, id);
      assert EntryLinked(State(), id);
      var bucket := FindBucket(id, start);
      if bucket == -1 {
        return;
      }
      MakeTried(id);
    }

    method FindEntry(net: NetAddr, port: nat) returns (found: Option<int>)
      ensures found == FindService(State(), net, port)
    {
      if net !in mapAddr || mapAddr[net] !in mapInfo {
        return None;
      }
      var id := mapAddr[net];
      found := if mapInfo[id].address.net == net && mapInfo[id].address.port == port then Some(id) else None;
    }

    method Attempt(net: NetAddr, port: nat, countFailure: bool, time: int)
      requires Consistent(State(), h) && time >= 0
      modifies this`mapInfo
      ensures Consistent(State(), h)
      ensures State() == AddrOps.Attempt(old(State()), net, port, countFailure, time)
    {
      MarksKeep(State(), h, net, port, countFailure, time, {});
      var found := FindEntry(net, port);
      if found.Some? {
        var e := mapInfo[found.value].(lastTry := time);
        if countFailure && e.lastCountAttempt < nLastGood {
          e := e.(lastCountAttempt := time, attempts := e.attempts + 1);
        }
        mapInfo := mapInfo[found.value := e];
      }
    }

    method Connected(net: NetAddr, port: nat, time: int)
      requires Consistent(State(), h)
      modifies this`mapInfo
      ensures Consistent(State(), h)
      ensures State() == AddrOps.Connected(old(State()), net, port, time)
    {
      MarksKeep(State(), h, net, port, false, time, {});
      var found := FindEntry(net, port);
      if found.Some? {
        var e := mapInfo[found.value];
        if time - e.address.time > 20 * MINUTE {
          mapInfo := mapInfo[found.value := e.(address := e.address.(time := time % TWO_32))];
        }
      }
    }

    method SetServices(net: NetAddr, port: nat, services: set<nat>)
      requires Consistent(State(), h)
      modifies this`mapInfo
      ensures Consistent(State(), h)
      ensures State() == AddrOps.SetServices(old(State()), net, port, services)
    {
      MarksKeep(State(), h, net, port, false, 0, services);
      var found := FindEntry(net, port);
      if found.Some? {
        var e := mapInfo[found.value];
        mapInfo := mapInfo[found.value := e.(address := e.address.(services := services))];
      }
    }

    /** Enters an entry into the new table if its slot is free or may be taken. */
    method Place(id: int, source: NetAddr, now: int)
      requires Valid() && 0 <= id && CanPlace(State(), h, id, source, now)
      modifies Repr()
      ensures Valid() && State() == AddrOps.Place(old(State()), h, id, source, now)
    {
      var a := mapInfo[id].address;
      var s := h.NewSlot(h.NewBucket(a, source), a);
      var x := vvNew.Get(s);
      if x == id {
        return;
      }
      var insert := x == -1;
      if !insert && x in mapInfo {
        insert := IsTerrible(mapInfo[x], now) || (mapInfo[x].refCount > 1 && mapInfo[id].refCount == 0);
      }
      if insert {
        ClearNew(s);
        mapInfo := mapInfo[id := mapInfo[id].(refCount := mapInfo[id].refCount + 1)];
        vvNew.Set(s, id);
      } else if mapInfo[id].refCount == 0 {
        Delete(id);
      }
    }

    /** The loop that computes 2^refCount, and the draw against it. */
    method PassesTest(refCount: int, draw: nat) returns (pass: bool)
      ensures pass <==> Lucky(refCount, draw)
    {
      var factor := 1;
      var n := 0;
      while n < refCount
        invariant 0 <= n && (0 <= refCount ==> n <= refCount) && (refCount < 0 ==> n == 0)
        invariant factor == Pow2(n)
      {
        factor := factor * 2;
        n := n + 1;
      }
      pass := !(factor > 1 && draw % factor != 0);
    }

    method Create(a: Address, source: NetAddr) returns (id: int)
      modifies this
      ensures id == old(nIdCount) && State() == AddrModel.Create(old(State()), a, source)
    {
      id := nIdCount;
      nIdCount := nIdCount + 1;
      mapInfo := mapInfo[id := Info(a, source, 0, 0, 0, 0, 0, false, |vRandom|)];
      mapAddr := mapAddr[a.net := id];
      vRandom := vRandom + [id];
    }

    method Add(a: Address, source: NetAddr, penalty: int, now: int, draw: nat) returns (isNew: bool)
      requires Valid() && Consistent(State(), h)
      modifies Repr()
      ensures Valid() && Consistent(State(), h)
      ensures (State(), isNew) == AddrOps.Add(old(State()), h, a, source, penalty, now, draw)
    {
      ghost var b := State();
      AddKeeps(b, h, a, source, penalty, now, draw);
      if !a.routable {
        return false;
      }
      var p := if a.net == source then 0 else penalty;
      isNew := a.net !in mapAddr || mapAddr[a.net] !in mapInfo;
      if isNew {
        NotFound(b, a.net);
        EnterKeeps(b, h, a, source, p);
        PlaceKeeps(Enter(b, a, source, p), h, b.idCount, source, now);
        AddUnknown(a, source, p, now);
      } else {
        RefreshKeeps(b, h, mapAddr[a.net], a, p, now);
        AddKnown(mapAddr[a.net], a, source, p, now, draw);
      }
    }

    method AddUnknown(a: Address, source: NetAddr, penalty: int, now: int)
      requires Valid() && CanPlace(Enter(State(), a, source, penalty), h, nIdCount, source, now)
      modifies Repr()
      ensures Valid()
      ensures State() == AddrOps.Place(Enter(old(State()), a, source, penalty), h, old(nIdCount), source, now)
    {
      var id := EnterEntry(a, source, penalty);
      Place(id, source, now);
    }

    method EnterEntry(a: Address, source: NetAddr, penalty: int) returns (id: int)
      modifies this
      ensures id == old(nIdCount) && State() == Enter(old(State()), a, source, penalty)
    {
      id := Create(a, source);
      mapInfo := mapInfo[id := mapInfo[id].(address := a.(time := Max(0, a.time - penalty) % TWO_32))];
      nNew := nNew + 1;
    }

    method AddKnown(id: int, a: Address, source: NetAddr, penalty: int, now: int, draw: nat)
      requires Valid() && id in mapInfo
      requires Consistent(State().(info := mapInfo[id := Refresh(mapInfo[id], a, penalty, now)]), h)
      modifies Repr()
      ensures Valid()
      ensures var b := old(State());
        var e := Refresh(b.info[id], a, penalty, now);
        var c := b.(info := b.info[id := e]);
        if NoNewReference(e, a, draw) then State() == c
        else CanPlace(c, h, id, source, now) && State() == AddrOps.Place(c, h, id, source, now)
    {
      ghost var c := State().(info := mapInfo[id := Refresh(mapInfo[id], a, penalty, now)]);
      var e := mapInfo[id];
      var interval := if now - a.time < DAY then HOUR else DAY;
      if a.time != 0 && (e.address.time == 0 || e.address.time < a.time - interval - penalty) {
        e := e.(address := e.address.(time := Max(0, a.time - penalty) % TWO_32));
      }
      e := e.(address := e.address.(services := e.address.services + a.services));
      mapInfo := mapInfo[id := e];
      assert State() == c;
      TryPlace(id, a, source, now, draw);
    }

    /** The early exits of Add for a known entry, and one more reference otherwise. */
    method TryPlace(id: int, a: Address, source: NetAddr, now: int, draw: nat)
      requires Valid() && id in mapInfo && Consistent(State(), h)
      modifies Repr()
      ensures Valid()
      ensures var c := old(State());
        if NoNewReference(c.info[id], a, draw) then State() == c
        else CanPlace(c, h, id, source, now) && State() == AddrOps.Place(c, h, id, source, now)
    {
      ghost var c := State();
      var e := mapInfo[id];
      if a.time == 0 || (e.address.time != 0 && a.time <= e.address.time) {
        return;
      }
      if e.inTried || e.refCount == NEW_BUCKETS_PER_ADDRESS {
        return;
      }
      var pass := PassesTest(e.refCount, draw);
      if !pass {
        return;
      }
      assert EntryTabled(c, h, id) && EntryLinked(c, id);
      PlaceKeeps(c, h, id, source, now);
      Place(id, source, now);
    }

    /** The entries chosen for a getaddr answer; `picks` are the random positions. */
    method GetAddr(picks: seq<int>, now: int) returns (addresses: seq<Address>, ghost ids: seq<int>)
      requires Consistent(State(), h) && Picks(State(), picks, 0)
      modifies this`mapInfo, this`vRandom
      ensures Consistent(State(), h)
      ensures (State(), ids) == Select(old(State()), 0, picks, [], Quota(old(State())), now)
      ensures |ids| <= Quota(old(State())) && Chosen(State(), ids, |vRandom|, now)
      ensures AddressesOf(mapInfo, ids, addresses)
    {
      ghost var b := State();
      var quota := GETADDR_MAX_PCT * |vRandom| / 100;
      if quota > GETADDR_MAX {
        quota := GETADDR_MAX;
      }
      SelectKeeps(b, h, 0, picks, [], quota, now);
      addresses, ids := SelectLoop(picks, quota, now);
    }

    method SelectLoop(picks: seq<int>, quota: int, now: int) returns (addresses: seq<Address>, ghost ids: seq<int>)
      requires Linked(State()) && Picks(State(), picks, 0)
      modifies this`mapInfo, this`vRandom
      ensures (State(), ids) == Select(old(State()), 0, picks, [], quota, now)
      ensures AddressesOf(mapInfo, ids, addresses)
    {
      ghost var b, rest := State(), picks;
      addresses, ids := [], [];
      var n := 0;
      while n < |vRandom| && |addresses| < quota
        invariant 0 <= n <= |vRandom| == |picks|
        invariant Linked(State()) && rest == picks[n..]
        invariant Select(State(), n, rest, ids, quota, now) == Select(b, 0, picks, [], quota, now)
        invariant AddressesOf(mapInfo, ids, addresses)
      {
        assert rest == [picks[n]] + rest[1..];
        ghost var before := mapInfo;
        var id := PickAt(n, picks[n], rest[1..], ids, quota, now);
        rest := rest[1..];
        AddressesMore(before, mapInfo, ids, addresses, id);
        if !IsTerrible(mapInfo[id], now) {
          addresses, ids := addresses + [mapInfo[id].address], ids + [id];
        }
        n := n + 1;
      }
    }

    /** One turn of the selection loop. */
    method PickAt(n: nat, pick: int, ghost rest: seq<int>, ghost ids: seq<int>, ghost quota: int, ghost now: int)
      returns (id: int)
      requires Linked(State()) && n <= pick < |vRandom| && |ids| < quota
      modifies this`mapInfo, this`vRandom
      ensures id in mapInfo
      ensures Select(old(State()), n, [pick] + rest, ids, quota, now) ==
        Select(State(), n + 1, rest, if IsTerrible(mapInfo[id], now) then ids else ids + [id], quota, now)
      ensures Linked(State()) && |vRandom| == |old(vRandom)|
      ensures SameAddresses(old(mapInfo), mapInfo)
    {
      CanAlwaysPick(State(), n, pick);
      assert ([pick] + rest)[1..] == rest;
      SwapRandom(n, pick);
      id := vRandom[n];
    }
  }
}

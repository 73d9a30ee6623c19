/** What the operations of the address manager do to slots, times and records, spelled out on
    the values of the hashes and in seconds. */
module AddrEffects {
  import opened AddrModel
  import opened AddrOps
  import opened Numbers
  import opened Wrappers

  /** Where a source leads an address in the new table. */
  function NewSlotOf(h: Hashing, net: NetAddr, port: nat, source: NetAddr): Slot {
    var bucket := h.newHash(net, port, source) % 1024;
    Slot(bucket, h.positionHash(true, bucket, net, port) % 64)
  }

  /** Where an address belongs in the tried table. */
  function TriedSlotOf(h: Hashing, net: NetAddr, port: nat): Slot {
    var bucket := h.triedHash(net, port) % 256;
    Slot(bucket, h.positionHash(false, bucket, net, port) % 64)
  }

  /** Entries worth keeping: tried within a minute, or seen within thirty days and not in the
      future, with fewer than three failures unless there was a success, and fewer than ten
      unless that was within a week. */
  lemma TerribleIff(e: Info, now: int)
    ensures !IsTerrible(e, now) <==>
      || (e.lastTry != 0 && e.lastTry + 60 >= now)
      || (&& e.address.time != 0 && now - 2592000 <= e.address.time <= now + 600
          && (e.lastSuccess != 0 || e.attempts < 3)
          && (e.lastSuccess + 604800 >= now || e.attempts < 10))
  {
  }

  // ----- adding

  ghost predicate Overwritable(b: Book, s: Slot, now: int) {
    s in b.newTable ==> b.newTable[s] in b.info && IsTerrible(b.info[b.newTable[s]], now)
  }

  ghost predicate Takable(b: Book, s: Slot, now: int) {
    s in b.newTable ==>
      b.newTable[s] in b.info && (IsTerrible(b.info[b.newTable[s]], now) || b.info[b.newTable[s]].refCount > 1)
  }

  /** A new address gets the slot of its hashes if that is free, or its entry terrible or
      referenced elsewhere; no other slot changes its entry. */
  lemma AddUnknownDoes(b: Book, h: Hashing, a: Address, source: NetAddr, penalty: int, now: int, draw: nat)
    requires Consistent(b, h) && a.routable && a.net !in b.addr
    ensures var (d, isNew) := Add(b, h, a, source, penalty, now, draw);
      var s, id := NewSlotOf(h, a.net, a.port, source), b.idCount;
      var kept := Takable(b, s, now);
      && isNew && d.newTable == (if kept then b.newTable[s := id] else b.newTable)
      && (kept <==> id in d.info)
      && (kept ==>
            && d.info[id].address == a.(time := Max(0, a.time - (if a.net == source then 0 else penalty)) % TWO_32)
            && d.info[id].source == source && d.info[id].refCount == 1 && !d.info[id].inTried
            && d.info[id].attempts == 0 && d.info[id].lastSuccess == 0 && d.info[id].lastTry == 0)
  {
    NotFound(b, a.net);
    var p := if a.net == source then 0 else penalty;
    EnterKeeps(b, h, a, source, p);
    EnteredDoes(b, h, a, source, p, now);
  }

  lemma EnteredDoes(b: Book, h: Hashing, a: Address, source: NetAddr, p: int, now: int)
    requires Consistent(b, h) && a.net !in b.addr
    requires var c := Enter(b, a, source, p); Core(c, h) && Referenced(c, {b.idCount}) && Drift(c) == (0, 0, 0)
    ensures CanPlace(Enter(b, a, source, p), h, b.idCount, source, now)
    ensures var d := Place(Enter(b, a, source, p), h, b.idCount, source, now);
      var s, id := NewSlotOf(h, a.net, a.port, source), b.idCount;
      var kept := Takable(b, s, now);
      && d.newTable == (if kept then b.newTable[s := id] else b.newTable)
      && (kept <==> id in d.info)
      && (kept ==>
            && d.info[id].address == a.(time := Max(0, a.time - p) % TWO_32)
            && d.info[id].source == source && d.info[id].refCount == 1 && !d.info[id].inTried
            && d.info[id].attempts == 0 && d.info[id].lastSuccess == 0 && d.info[id].lastTry == 0)
  {
    var c, id := Enter(b, a, source, p), b.idCount;
    var s := NewSlotOf(h, a.net, a.port, source);
    if s in b.newTable {
      assert NewSlotOk(b, h, s);
      assert EntryLinked(b, b.newTable[s]);
      assert c.info[b.newTable[s]] == b.info[b.newTable[s]];
    }
    assert Takable(c, s, now) <==> Takable(b, s, now);
    UnreferencedDoes(c, h, id, source, now);
  }

  lemma UnreferencedDoes(b: Book, h: Hashing, id: int, source: NetAddr, now: int)
    requires Core(b, h) && Referenced(b, {id}) && Drift(b) == (0, 0, 0)
    requires id in b.info && !b.info[id].inTried && b.info[id].refCount == 0
    ensures CanPlace(b, h, id, source, now)
    ensures var d := Place(b, h, id, source, now);
      var s := NewSlotOf(h, b.info[id].address.net, b.info[id].address.port, source);
      && d.newTable == (if Takable(b, s, now) then b.newTable[s := id] else b.newTable)
      && (Takable(b, s, now) <==> id in d.info)
      && (id in d.info ==> d.info[id] == b.info[id].(refCount := 1, randomPos := d.info[id].randomPos))
  {
    var s := SlotFor(b, h, id, source);
    PlaceStoresIff(b, h, id, source, now);
    assert MayTake(b, s, id, now) <==> Takable(b, s, now);
    NotInTable(b, h, id, s);
    if MayTake(b, s, id, now) {
      ClearKeeps(b, h, s, {id});
      assert SameButUnref(b, ClearNew(b, s), s);
      assert b.newTable[s := id] == (b.newTable - {s})[s := id];
    } else {
      DeleteKeeps(b, h, id, {id});
    }
  }

  lemma NotInTable(b: Book, h: Hashing, id: int, s: Slot)
    requires Core(b, h) && id in b.info && b.info[id].refCount == 0
    ensures s in b.newTable ==> b.newTable[s] != id
  {
    assert EntryTabled(b, h, id);
    assert s in b.newTable && b.newTable[s] == id ==> s in SlotsOf(b.newTable, id);
  }

  /** The time of a known entry after it was heard of again: it is moved up when it is older by
      more than an hour, or a day if the address is not online, plus the penalty. */
  function TimeAfter(was: int, heard: int, penalty: int, now: int): int {
    var interval := if now - heard < 86400 then 3600 else 86400;
    if heard != 0 && (was == 0 || was < heard - interval - penalty) then Max(0, heard - penalty) % TWO_32 else was
  }

  /** A known address gets its services and time; and one more slot, that of its hashes with this
      source, if the news is newer, it is untried and below eight references, the draw passes the
      test and the slot is free or its entry terrible. */
  lemma AddKnownDoes(b: Book, h: Hashing, a: Address, source: NetAddr, penalty: int, now: int, draw: nat)
    requires Consistent(b, h) && a.routable && a.net in b.addr
    ensures b.addr[a.net] in b.info
    ensures var d := Add(b, h, a, source, penalty, now, draw).0;
      var id := b.addr[a.net];
      var e := b.info[id];
      var time := TimeAfter(e.address.time, a.time, if a.net == source then 0 else penalty, now);
      var s := NewSlotOf(h, e.address.net, e.address.port, source);
      var further :=
        && a.time != 0 && (time == 0 || time < a.time) && !e.inTried && e.refCount < 8
        && (e.refCount >= 0 ==> draw % Pow2(e.refCount) == 0)
        && Overwritable(b, s, now) && (s in b.newTable ==> b.newTable[s] != id);
      && id in d.info
      && d.info[id].address == e.address.(time := time, services := e.address.services + a.services)
      && d.info[id].refCount == e.refCount + (if further then 1 else 0)
      && d.newTable == if further then b.newTable[s := id] else b.newTable
  {
    assert AddrLinked(b, a.net);
    var p := if a.net == source then 0 else penalty;
    var id := b.addr[a.net];
    RefreshKeeps(b, h, id, a, p, now);
    assert EntryTabled(b, h, id);
    var c := b.(info := b.info[id := Refresh(b.info[id], a, p, now)]);
    if !NoNewReference(c.info[id], a, draw) {
      FurtherDoes(c, h, id, source, now);
      var s := SlotFor(c, h, id, source);
      if s in b.newTable {
        assert NewSlotOk(b, h, s);
        assert b.newTable[s] != id ==> c.info[b.newTable[s]] == b.info[b.newTable[s]];
      }
    }
  }

  lemma FurtherDoes(b: Book, h: Hashing, id: int, source: NetAddr, now: int)
    requires Consistent(b, h) && id in b.info && !b.info[id].inTried && b.info[id].refCount < 8
    ensures CanPlace(b, h, id, source, now)
    ensures var d := Place(b, h, id, source, now);
      var e := b.info[id];
      var s := NewSlotOf(h, e.address.net, e.address.port, source);
      var further := Overwritable(b, s, now) && (s in b.newTable ==> b.newTable[s] != id);
      && id in d.info
      && d.info[id].address == e.address && d.info[id].refCount == e.refCount + (if further then 1 else 0)
      && d.newTable == if further then b.newTable[s := id] else b.newTable
  {
    var s := SlotFor(b, h, id, source);
    PlaceKeeps(b, h, id, source, now);
    if s in b.newTable {
      assert NewSlotOk(b, h, s);
    }
    if !(s in b.newTable && b.newTable[s] == id) && MayTake(b, s, id, now) {
      ClearKeeps(b, h, s, {id});
      assert SameButUnref(b, ClearNew(b, s), s);
      assert b.newTable[s := id] == (b.newTable - {s})[s := id];
    }
  }

  // ----- marking

  /** A service marked good is a success now, has no failures and is in the tried slot of its
      hashes. The entry that was there goes to the new slot of its hashes with its own source. */
  lemma GoodDoes(b: Book, h: Hashing, net: NetAddr, port: nat, time: int)
    requires Consistent(b, h) && time > 0 && FindService(b, net, port).Some?
    ensures var d := Good(b, h, net, port, time);
      var id := FindService(b, net, port).value;
      var s := TriedSlotOf(h, net, port);
      && id in b.info && id in d.info && d.lastGood == time && d.triedTable == b.triedTable[s := id]
      && d.info[id].inTried && d.info[id].address == b.info[id].address && d.info[id].source == b.info[id].source
      && d.info[id].lastSuccess == time && d.info[id].lastTry == time && d.info[id].attempts == 0
      && (s in b.triedTable && b.triedTable[s] != id ==>
            var o := b.triedTable[s];
            && o in b.info && o in d.info && !d.info[o].inTried && d.info[o].refCount == 1
            && var home := NewSlotOf(h, b.info[o].address.net, b.info[o].address.port, b.info[o].source);
               home in d.newTable && d.newTable[home] == o)
  {
    var id := FindService(b, net, port).value;
    MarkKeeps(b, h, id, time);
    var c := b.(lastGood := time, info := b.info[id := MarkGood(b.info[id], time)]);
    assert EntryTabled(b, h, id);
    var s := TriedSlotOf(h, net, port);
    assert s == h.TriedSlot(b.info[id].address);
    if s in b.triedTable {
      assert TriedSlotOk(b, h, s);
    }
    if !c.info[id].inTried {
      NeverLost(c, h, id);
      MakeTriedKeeps(c, h, id);
      MakeTriedDoes(c, h, id);
    } else {
      assert b.triedTable[s := id] == b.triedTable;
    }
  }

  lemma MakeTriedDoes(b: Book, h: Hashing, id: int)
    requires Consistent(b, h) && id in b.info && !b.info[id].inTried && CanMakeTried(b, h, id)
    ensures var d := MakeTried(b, h, id);
      var s := h.TriedSlot(b.info[id].address);
      && id in d.info && SameRecord(d.info[id], b.info[id]) && d.lastGood == b.lastGood
      && (s in b.triedTable ==>
            var o := b.triedTable[s];
            && o in b.info && o in d.info && !d.info[o].inTried && d.info[o].refCount == 1
            && var home := NewSlotOf(h, b.info[o].address.net, b.info[o].address.port, b.info[o].source);
               home in d.newTable && d.newTable[home] == o)
  {
    var s := h.TriedSlot(b.info[id].address);
    DropRefsKeeps(b, h, id);
    var c := DropRefs(b, h, id);
    EvictKeeps(c, h, s, {id});
    if s in b.triedTable {
      assert TriedSlotOk(b, h, s);
    }
  }

  ghost predicate SameRecord(e: Info, f: Info) {
    && e.address == f.address && e.source == f.source && e.lastTry == f.lastTry && e.lastSuccess == f.lastSuccess
    && e.attempts == f.attempts && e.lastCountAttempt == f.lastCountAttempt
  }

  /** Everything but the entry of the service stays as it was. */
  ghost predicate OnlyEntry(b: Book, d: Book, id: int, e: Info)
    requires id in b.info
  {
    d == b.(info := b.info[id := e])
  }

  /** An attempt is noted, and counted as a failure at most once since the last success. */
  lemma AttemptDoes(b: Book, net: NetAddr, port: nat, countFailure: bool, time: int)
    requires FindService(b, net, port).Some?
    ensures var id := FindService(b, net, port).value;
      && id in b.info
      && var e := b.info[id];
         var counts := countFailure && e.lastCountAttempt < b.lastGood;
         OnlyEntry(b, Attempt(b, net, port, countFailure, time), id,
                   e.(lastTry := time, attempts := e.attempts + (if counts then 1 else 0),
                      lastCountAttempt := if counts then time else e.lastCountAttempt))
  {
  }

  lemma AttemptsCountOnce(b: Book, net: NetAddr, port: nat, first: int, second: int)
    requires FindService(b, net, port).Some? && first >= b.lastGood
    ensures var d := Attempt(Attempt(b, net, port, true, first), net, port, true, second);
      var id := FindService(b, net, port).value;
      id in b.info && id in d.info && d.info[id].attempts <= b.info[id].attempts + 1
  {
  }

  /** A connection moves the time up when it is older by more than twenty minutes. */
  lemma ConnectedDoes(b: Book, net: NetAddr, port: nat, time: int)
    requires FindService(b, net, port).Some?
    ensures var id := FindService(b, net, port).value;
      && id in b.info
      && var e := b.info[id];
         var later := if time - e.address.time > 1200 then time % TWO_32 else e.address.time;
         OnlyEntry(b, Connected(b, net, port, time), id, e.(address := e.address.(time := later)))
  {
    var id := FindService(b, net, port).value;
    assert b.info[id := b.info[id]] == b.info;
  }

  lemma ServicesDo(b: Book, net: NetAddr, port: nat, services: set<nat>)
    requires FindService(b, net, port).Some?
    ensures var id := FindService(b, net, port).value;
      && id in b.info
      && var e := b.info[id];
         OnlyEntry(b, SetServices(b, net, port, services), id, e.(address := e.address.(services := services)))
  {
  }

  /** Services that are not known, or known with another port, change nothing. */
  lemma UnknownServices(b: Book, net: NetAddr, port: nat, countFailure: bool, time: int, services: set<nat>)
    requires net in b.addr && b.addr[net] in b.info ==>
      b.info[b.addr[net]].address.net != net || b.info[b.addr[net]].address.port != port
    ensures Attempt(b, net, port, countFailure, time) == b && Connected(b, net, port, time) == b
    ensures SetServices(b, net, port, services) == b
  {
  }

  // ----- selecting

  /** Every good entry before position `n` has been chosen. */
  ghost predicate AllChosen(b: Book, ids: seq<int>, n: int, now: int) {
    forall id :: id in b.info && b.info[id].randomPos < n && !IsTerrible(b.info[id], now) ==> id in ids
  }

  /** Unless the quota is reached, every good entry is selected. */
  lemma {:induction false} SelectAll(b: Book, h: Hashing, n: nat, picks: seq<int>, chosen: seq<int>, quota: int,
                                     now: int)
    requires Consistent(b, h) && Picks(b, picks, n) && AllChosen(b, chosen, n, now)
    ensures var (c, ids) := Select(b, n, picks, chosen, quota, now);
      |ids| < quota ==> forall id :: id in c.info && !IsTerrible(c.info[id], now) ==> id in ids
    decreases |picks|
  {
    if picks == [] {
      forall id | id in b.info && !IsTerrible(b.info[id], now) ensures id in chosen {
        assert EntryLinked(b, id);
      }
    } else if |chosen| < quota {
      SwapKeeps(b, h, n, picks[0]);
      SwapLinked(b, n, picks[0]);
      var c := SwapRandom(b, n, picks[0]);
      assert RandomLinked(c, n);
      var id := c.random[n];
      var next := if IsTerrible(c.info[id], now) then chosen else chosen + [id];
      AllChosenOn(b, c, chosen, next, n, picks[0], now);
      SelectAll(c, h, n + 1, picks[1..], next, quota, now);
    }
  }

  lemma AllChosenOn(b: Book, c: Book, chosen: seq<int>, next: seq<int>, n: nat, k: int, now: int)
    requires Linked(b) && n <= k < |b.random| && b.random[n] in b.info && b.random[k] in b.info
    requires c == SwapRandom(b, n, k) && Linked(c) && AllChosen(b, chosen, n, now) && c.random[n] in c.info
    requires next == if IsTerrible(c.info[c.random[n]], now) then chosen else chosen + [c.random[n]]
    ensures AllChosen(c, next, n + 1, now)
  {
    assert RandomLinked(b, n) && RandomLinked(b, k);
    forall id | id in c.info && c.info[id].randomPos < n + 1 && !IsTerrible(c.info[id], now) ensures id in next {
      assert EntryLinked(c, id);
      assert EntryLinked(b, id);
      if c.info[id].randomPos < n {
        assert b.info[id].randomPos == c.info[id].randomPos;
        assert id in chosen;
      }
    }
  }

  /** The quota: 23 in a hundred, at most 2500. */
  lemma QuotaIs(b: Book)
    ensures Quota(b) <= 2500 && 100 * Quota(b) <= 23 * |b.random|
    ensures Quota(b) == 2500 || 23 * |b.random| < 100 * Quota(b) + 100
  {
  }
}

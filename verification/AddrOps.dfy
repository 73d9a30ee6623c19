/** The public operations of the address manager on the book of `AddrModel`, and
    the theorem that every run of them keeps the book consistent. Random numbers
    and the clock are arguments. */
module AddrOps {
  import opened AddrModel
  import opened Numbers
  import opened Wrappers

  const GETADDR_MAX_PCT: int := 23
  const GETADDR_MAX: int := 2500

  predicate IsTerrible(e: Info, now: int) {
    if e.lastTry != 0 && e.lastTry >= now - MINUTE then false
    else
      || e.address.time > now + 10 * MINUTE
      || e.address.time == 0
      || now - e.address.time > HORIZON_DAYS * DAY
      || (e.lastSuccess == 0 && e.attempts >= RETRIES)
      || (now - e.lastSuccess > MIN_FAIL_DAYS * DAY && e.attempts >= MAX_FAILURES)
  }

  // ----- adding

  /** The periodic update of the time and the services of a known entry. */
  function Refresh(e: Info, a: Address, penalty: int, now: int): Info {
    var interval := if now - a.time < DAY then HOUR else DAY;
    var time :=
      if a.time != 0 && (e.address.time == 0 || e.address.time < a.time - interval - penalty)
      then Max(0, a.time - penalty) % TWO_32 else e.address.time;
    e.(address := e.address.(time := time, services := e.address.services + a.services))
  }

  /** With n references a further one is 2^n times harder to get. */
  predicate Lucky(refCount: int, draw: nat) {
    refCount <= 0 || draw % Pow2(refCount) == 0
  }

  /** When a known entry gets no further reference. `draw` is the random number
      of the stochastic test. */
  predicate NoNewReference(e: Info, a: Address, draw: nat) {
    || a.time == 0
    || (e.address.time != 0 && a.time <= e.address.time)
    || e.inTried
    || e.refCount == NEW_BUCKETS_PER_ADDRESS
    || !Lucky(e.refCount, draw)
  }

  function SlotFor(b: Book, h: Hashing, id: int, source: NetAddr): Slot
    requires id in b.info
  {
    var a := b.info[id].address;
    h.NewSlot(h.NewBucket(a, source), a)
  }

  /** An occupied slot is overwritten if its entry is terrible, or if that entry
      has other references and the newcomer none. */
  predicate MayTake(b: Book, s: Slot, id: int, now: int)
    requires id in b.info
  {
    s in b.newTable ==>
      && b.newTable[s] in b.info
      && var e := b.info[b.newTable[s]];
         IsTerrible(e, now) || (e.refCount > 1 && b.info[id].refCount == 0)
  }

  predicate CanPlace(b: Book, h: Hashing, id: int, source: NetAddr, now: int) {
    && id in b.info
    && var s := SlotFor(b, h, id, source);
       if s in b.newTable && b.newTable[s] == id then true
       else if MayTake(b, s, id, now) then CanClear(b, s) && id in ClearNew(b, s).info
       else b.info[id].refCount == 0 ==> CanDelete(b, id)
  }

  function Place(b: Book, h: Hashing, id: int, source: NetAddr, now: int): Book
    requires CanPlace(b, h, id, source, now)
  {
    var s := SlotFor(b, h, id, source);
    if s in b.newTable && b.newTable[s] == id then b
    else if MayTake(b, s, id, now) then
      var c := ClearNew(b, s);
      c.(info := c.info[id := c.info[id].(refCount := c.info[id].refCount + 1)], newTable := c.newTable[s := id])
    else if b.info[id].refCount == 0 then Delete(b, id)
    else b
  }

  lemma PlaceKeeps(b: Book, h: Hashing, id: int, source: NetAddr, now: int)
    requires Core(b, h) && Referenced(b, {id}) && Drift(b) == (0, 0, 0)
    requires id in b.info && !b.info[id].inTried && b.info[id].refCount < NEW_BUCKETS_PER_ADDRESS
    ensures CanPlace(b, h, id, source, now)
    ensures Consistent(Place(b, h, id, source, now), h)
    ensures Place(b, h, id, source, now).triedTable == b.triedTable
    ensures forall i :: i in b.info && i != id && i !in Place(b, h, id, source, now).info ==>
      b.info[i].refCount == 1 && b.newTable[SlotFor(b, h, id, source)] == i
        && MayTake(b, SlotFor(b, h, id, source), id, now)
  {
    var s := SlotFor(b, h, id, source);
    assert EntryTabled(b, h, id);
    if s in b.newTable && b.newTable[s] == id {
      assert s in SlotsOf(b.newTable, id);
    } else if MayTake(b, s, id, now) {
      ClearKeeps(b, h, s, {id});
      var c := ClearNew(b, s);
      assert SameButUnref(b, c, s);
      RefKeeps(c, Place(b, h, id, source, now), h, id, s, {id});
    } else if b.info[id].refCount == 0 {
      DeleteKeeps(b, h, id, {id});
    }
  }

  function Enter(b: Book, a: Address, source: NetAddr, penalty: int): Book {
    var c := Create(b, a, source);
    var e := c.info[b.idCount];
    c.(info := c.info[b.idCount := e.(address := a.(time := Max(0, a.time - penalty) % TWO_32))], nNew := c.nNew + 1)
  }

  lemma EnterKeeps(b: Book, h: Hashing, a: Address, source: NetAddr, penalty: int)
    requires Consistent(b, h) && a.net !in b.addr
    ensures var c := Enter(b, a, source, penalty);
      && Core(c, h) && Referenced(c, {b.idCount}) && Drift(c) == (0, 0, 0)
      && b.idCount in c.info && c.info[b.idCount].refCount == 0 && !c.info[b.idCount].inTried
  {
    var id := b.idCount;
    var c := Enter(b, a, source, penalty);
    EnterLinked(b, c, a.net);
    EnterTabled(b, c, h, id);
    assert Untried(c.info) == Untried(b.info) + {id} && Tried(c.info) == Tried(b.info);
  }

  lemma EnterLinked(b: Book, c: Book, net: NetAddr)
    requires Linked(b) && net !in b.addr && b.idCount in c.info && c.info == b.info[b.idCount := c.info[b.idCount]]
    requires c.addr == b.addr[net := b.idCount] && c.random == b.random + [b.idCount] && c.idCount == b.idCount + 1
    requires c.info[b.idCount].address.net == net && c.info[b.idCount].randomPos == |b.random|
    ensures b.idCount !in b.info && Linked(c)
  {
    var id := b.idCount;
    assert id in b.info ==> EntryLinked(b, id);
    forall i | i in c.info ensures EntryLinked(c, i) {
      assert i != id ==> EntryLinked(b, i);
    }
    forall x | x in c.addr ensures AddrLinked(c, x) {
      assert x != net ==> AddrLinked(b, x);
    }
    forall k | 0 <= k < |c.random| ensures RandomLinked(c, k) {
      assert k < |b.random| ==> RandomLinked(b, k);
    }
  }

  lemma EnterTabled(b: Book, c: Book, h: Hashing, id: int)
    requires Tabled(b, h) && id !in b.info && id in c.info && c.info == b.info[id := c.info[id]]
    requires c.newTable == b.newTable && c.triedTable == b.triedTable
    requires c.info[id].refCount == 0 && !c.info[id].inTried && c.info[id].lastTry == 0 && c.info[id].lastSuccess == 0
    ensures Tabled(c, h)
  {
    forall t | t in c.newTable ensures NewSlotOk(c, h, t) && c.newTable[t] != id {
      assert NewSlotOk(b, h, t);
    }
    forall t | t in c.triedTable ensures TriedSlotOk(c, h, t) {
      assert TriedSlotOk(b, h, t);
    }
    assert SlotsOf(c.newTable, id) == {};
    forall i | i in c.info ensures EntryTabled(c, h, i) {
      assert i != id ==> EntryTabled(b, h, i);
    }
  }

  ghost function Add(b: Book, h: Hashing, a: Address, source: NetAddr, penalty: int, now: int, draw: nat): (Book, bool)
    requires Consistent(b, h)
  {
    if !a.routable then (b, false) else
    var p := if a.net == source then 0 else penalty;
    match Find(b, a.net)
    case Some(id) =>
      var e := Refresh(b.info[id], a, p, now);
      var c := b.(info := b.info[id := e]);
      if NoNewReference(e, a, draw) then (c, false) else
      RefreshKeeps(b, h, id, a, p, now);
      PlaceKeeps(c, h, id, source, now);
      (Place(c, h, id, source, now), false)
    case None =>
      NotFound(b, a.net);
      EnterKeeps(b, h, a, source, p);
      PlaceKeeps(Enter(b, a, source, p), h, b.idCount, source, now);
      (Place(Enter(b, a, source, p), h, b.idCount, source, now), true)
  }

  lemma NotFound(b: Book, net: NetAddr)
    requires Linked(b)
    ensures Find(b, net).None? <==> net !in b.addr
  {
    if net in b.addr {
      assert AddrLinked(b, net);
    }
  }

  lemma RefreshKeeps(b: Book, h: Hashing, id: int, a: Address, penalty: int, now: int)
    requires Consistent(b, h) && id in b.info
    ensures Consistent(b.(info := b.info[id := Refresh(b.info[id], a, penalty, now)]), h)
    ensures b.info[id].refCount <= NEW_BUCKETS_PER_ADDRESS
  {
    assert EntryTabled(b, h, id);
    UpdateKeeps(b, h, id, Refresh(b.info[id], a, penalty, now), {});
  }

  /** An entry without references is kept exactly when it may have its slot. */
  lemma PlaceStoresIff(b: Book, h: Hashing, id: int, source: NetAddr, now: int)
    requires Core(b, h) && Referenced(b, {id}) && Drift(b) == (0, 0, 0)
    requires id in b.info && !b.info[id].inTried && b.info[id].refCount == 0
    ensures CanPlace(b, h, id, source, now)
    ensures var c := Place(b, h, id, source, now);
      && (id in c.info <==> MayTake(b, SlotFor(b, h, id, source), id, now))
      && (id in c.info <==> b.info[id].address.net in c.addr)
  {
    PlaceKeeps(b, h, id, source, now);
    var s := SlotFor(b, h, id, source);
    assert EntryTabled(b, h, id);
    assert s in b.newTable && b.newTable[s] == id ==> s in SlotsOf(b.newTable, id);
    if MayTake(b, s, id, now) {
      ClearKeeps(b, h, s, {id});
      var c := Place(b, h, id, source, now);
      assert SameButUnref(b, ClearNew(b, s), s);
      assert EntryLinked(c, id);
    } else {
      DeleteKeeps(b, h, id, {id});
    }
  }

  /** Whether a new address may have the slot that its hash gives it. */
  predicate GetsSlot(b: Book, h: Hashing, a: Address, source: NetAddr, penalty: int, now: int) {
    var c := Enter(b, a, source, if a.net == source then 0 else penalty);
    MayTake(c, SlotFor(c, h, b.idCount, source), b.idCount, now)
  }

  /** Adding keeps the book consistent. A new address is reported whether or not it
      is kept; it is kept exactly when it may have its slot. */
  lemma AddKeeps(b: Book, h: Hashing, a: Address, source: NetAddr, penalty: int, now: int, draw: nat)
    requires Consistent(b, h)
    ensures Consistent(Add(b, h, a, source, penalty, now, draw).0, h)
    ensures Add(b, h, a, source, penalty, now, draw).1 <==> a.routable && a.net !in b.addr
    ensures Add(b, h, a, source, penalty, now, draw).0.triedTable == b.triedTable
    ensures a.routable && a.net !in b.addr ==>
      (a.net in Add(b, h, a, source, penalty, now, draw).0.addr <==> GetsSlot(b, h, a, source, penalty, now))
  {
    NotFound(b, a.net);
    var p := if a.net == source then 0 else penalty;
    match Find(b, a.net)
    case Some(id) =>
      RefreshKeeps(b, h, id, a, p, now);
      var c := b.(info := b.info[id := Refresh(b.info[id], a, p, now)]);
      if !NoNewReference(c.info[id], a, draw) {
        PlaceKeeps(c, h, id, source, now);
      }
    case None =>
      EnterKeeps(b, h, a, source, p);
      PlaceStoresIff(Enter(b, a, source, p), h, b.idCount, source, now);
      PlaceKeeps(Enter(b, a, source, p), h, b.idCount, source, now);
  }

  /** Two addresses of one slot, added to a fresh manager: both are reported, the
      second is not kept. */
  lemma AddReportsDeleted()
    ensures var h := Hashing((net, port) => 0, (net, port, source) => 0, (isNew, bucket, net, port) => 0);
      var a1, a2 := Address(1, 8333, 1000, {}, true), Address(2, 8333, 1000, {}, true);
      && Consistent(EMPTY_BOOK, h)
      && var (b, first) := Add(EMPTY_BOOK, h, a1, 9, 0, 1000, 0);
      && Consistent(b, h)
      && var (c, second) := Add(b, h, a2, 9, 0, 1000, 0);
      first && 1 in b.addr && second && 2 !in c.addr && 1 in c.addr
  {
    var h := Hashing((net, port) => 0, (net, port, source) => 0, (isNew, bucket, net, port) => 0);
    var a1, a2 := Address(1, 8333, 1000, {}, true), Address(2, 8333, 1000, {}, true);
    FreshConsistent(h);
    AddKeeps(EMPTY_BOOK, h, a1, 9, 0, 1000, 0);
    var b := Add(EMPTY_BOOK, h, a1, 9, 0, 1000, 0).0;
    assert b.newTable == map[Slot(0, 0) := 0];
    assert b.idCount == 1 && b.info.Keys == {0} && b.addr.Keys == {1};
    assert b.info[0].refCount == 1 && !IsTerrible(b.info[0], 1000);
    AddKeeps(b, h, a2, 9, 0, 1000, 0);
  }

  // ----- marking

  /** The entry for exactly this service, the port included. */
  function FindService(b: Book, net: NetAddr, port: nat): Option<int> {
    match Find(b, net)
    case Some(id) => if b.info[id].address.net == net && b.info[id].address.port == port then Some(id) else None
    case None => None
  }

  function MarkGood(e: Info, time: int): Info {
    e.(lastSuccess := time, lastTry := time, attempts := 0)
  }

  /** "Something bad happened": an untried entry that no new bucket holds. */
  predicate Lost(b: Book, h: Hashing, id: int)
    requires id in b.info
  {
    Hits(b, h, id) == {}
  }

  lemma NeverLost(b: Book, h: Hashing, id: int)
    requires Consistent(b, h) && id in b.info && !b.info[id].inTried
    ensures !Lost(b, h, id)
  {
    assert EntryTabled(b, h, id);
    DropRefsKeeps(b, h, id);
  }

  ghost function Good(b: Book, h: Hashing, net: NetAddr, port: nat, time: int): Book
    requires Consistent(b, h) && time > 0
  {
    var c := b.(lastGood := time);
    match FindService(b, net, port)
    case None => c
    case Some(id) =>
      var d := c.(info := c.info[id := MarkGood(c.info[id], time)]);
      if d.info[id].inTried || Lost(d, h, id) then d else
      MarkKeeps(b, h, id, time);
      MakeTriedKeeps(d, h, id);
      MakeTried(d, h, id)
  }

  lemma MarkKeeps(b: Book, h: Hashing, id: int, time: int)
    requires Consistent(b, h) && time > 0 && id in b.info
    ensures Consistent(b.(lastGood := time, info := b.info[id := MarkGood(b.info[id], time)]), h)
  {
    UpdateKeeps(b, h, id, MarkGood(b.info[id], time), {});
    CoreFrame(b.(info := b.info[id := MarkGood(b.info[id], time)]),
              b.(lastGood := time, info := b.info[id := MarkGood(b.info[id], time)]), h);
  }

  /** Marking a known service good always ends with it in its own tried slot. */
  lemma GoodKeeps(b: Book, h: Hashing, net: NetAddr, port: nat, time: int)
    requires Consistent(b, h) && time > 0
    ensures Consistent(Good(b, h, net, port, time), h)
    ensures forall id :: FindService(b, net, port) == Some(id) ==>
      var c := Good(b, h, net, port, time);
      id in c.info && c.info[id].inTried && c.triedTable == b.triedTable[h.TriedSlot(b.info[id].address) := id]
  {
    match FindService(b, net, port)
    case None => CoreFrame(b, b.(lastGood := time), h);
    case Some(id) =>
      MarkKeeps(b, h, id, time);
      var d := b.(lastGood := time, info := b.info[id := MarkGood(b.info[id], time)]);
      assert EntryTabled(b, h, id);
      if !d.info[id].inTried {
        NeverLost(d, h, id);
        MakeTriedKeeps(d, h, id);
      } else {
        assert b.triedTable[h.TriedSlot(b.info[id].address) := id] == b.triedTable;
      }
  }

  function Attempt(b: Book, net: NetAddr, port: nat, countFailure: bool, time: int): Book {
    match FindService(b, net, port)
    case None => b
    case Some(id) =>
      var e := b.info[id].(lastTry := time);
      b.(info := b.info[id :=
        if countFailure && e.lastCountAttempt < b.lastGood
        then e.(lastCountAttempt := time, attempts := e.attempts + 1) else e])
  }

  function Connected(b: Book, net: NetAddr, port: nat, time: int): Book {
    match FindService(b, net, port)
    case None => b
    case Some(id) =>
      var e := b.info[id];
      if time - e.address.time > 20 * MINUTE
      then b.(info := b.info[id := e.(address := e.address.(time := time % TWO_32))]) else b
  }

  function SetServices(b: Book, net: NetAddr, port: nat, services: set<nat>): Book {
    match FindService(b, net, port)
    case None => b
    case Some(id) => b.(info := b.info[id := b.info[id].(address := b.info[id].address.(services := services))])
  }

  lemma MarksKeep(b: Book, h: Hashing, net: NetAddr, port: nat, countFailure: bool, time: int, services: set<nat>)
    requires Consistent(b, h)
    ensures time >= 0 ==> Consistent(Attempt(b, net, port, countFailure, time), h)
    ensures Consistent(Connected(b, net, port, time), h)
    ensures Consistent(SetServices(b, net, port, services), h)
  {
    match FindService(b, net, port)
    case None =>
    case Some(id) =>
      assert EntryTabled(b, h, id);
      if time >= 0 {
        UpdateKeeps(b, h, id, Attempt(b, net, port, countFailure, time).info[id], {});
      }
      UpdateKeeps(b, h, id, Connected(b, net, port, time).info[id], {});
      assert b.info[id := b.info[id]] == b.info;
      UpdateKeeps(b, h, id, SetServices(b, net, port, services).info[id], {});
  }

  // ----- selecting

  function Quota(b: Book): int {
    var n := GETADDR_MAX_PCT * |b.random| / 100;
    if n > GETADDR_MAX then GETADDR_MAX else n
  }

  ghost predicate Picks(b: Book, picks: seq<int>, n: nat) {
    n + |picks| == |b.random| && forall k :: 0 <= k < |picks| ==> n + k <= picks[k] < |b.random|
  }

  /** The assert and the lookup of one turn of the selection loop. */
  predicate CanPick(b: Book, n: nat, pick: int) {
    && CanSwap(b, n, pick)
    && n < |SwapRandom(b, n, pick).random|
    && SwapRandom(b, n, pick).random[n] in SwapRandom(b, n, pick).info
  }

  /** The selection loop from position `n` on; `picks` are the random positions,
      each between the loop index and the end. Returns the chosen entries. */
  function Select(b: Book, n: nat, picks: seq<int>, chosen: seq<int>, quota: int, now: int): (Book, seq<int>)
    decreases |picks|
  {
    if picks == [] || |chosen| >= quota || !CanPick(b, n, picks[0]) then (b, chosen) else
    var c := SwapRandom(b, n, picks[0]);
    var id := c.random[n];
    Select(c, n + 1, picks[1..], if IsTerrible(c.info[id], now) then chosen else chosen + [id], quota, now)
  }

  lemma CanAlwaysPick(b: Book, n: nat, pick: int)
    requires Linked(b) && n <= pick < |b.random|
    ensures CanPick(b, n, pick) && Linked(SwapRandom(b, n, pick))
  {
    SwapLinked(b, n, pick);
    assert RandomLinked(SwapRandom(b, n, pick), n);
  }

  lemma SwapKeeps(b: Book, h: Hashing, i: nat, j: int)
    requires Consistent(b, h) && 0 <= i < |b.random| && 0 <= j < |b.random|
    ensures b.random[i] in b.info && b.random[j] in b.info
    ensures Consistent(SwapRandom(b, i, j), h) && CanPick(b, i, j)
  {
    SwapLinked(b, i, j);
    var c := SwapRandom(b, i, j);
    assert RandomLinked(c, i);
    forall s | s in b.newTable ensures b.newTable[s] in c.info {
      assert NewSlotOk(b, h, s);
    }
    forall s | s in b.triedTable ensures b.triedTable[s] in c.info {
      assert TriedSlotOk(b, h, s);
    }
    TabledFrame(b, c, h);
    assert Untried(c.info) == Untried(b.info) && Tried(c.info) == Tried(b.info);
  }

  /** A selection keeps the book consistent and returns distinct known entries of
      good quality, within the quota. */
  lemma {:induction false} SelectKeeps(b: Book, h: Hashing, n: nat, picks: seq<int>, chosen: seq<int>, quota: int,
                                       now: int)
    requires Consistent(b, h) && Picks(b, picks, n) && |chosen| <= Max(0, quota)
    requires Chosen(b, chosen, n, now)
    ensures var (c, ids) := Select(b, n, picks, chosen, quota, now);
      && Consistent(c, h) && |ids| <= Max(0, quota)
      && Chosen(c, ids, |c.random|, now)
    decreases |picks|
  {
    if picks != [] && |chosen| < quota {
      SwapKeeps(b, h, n, picks[0]);
      SwapLinked(b, n, picks[0]);
      var c := SwapRandom(b, n, picks[0]);
      assert RandomLinked(c, n);
      var id := c.random[n];
      ChosenStep(b, c, chosen, n, picks[0], now);
      SelectKeeps(c, h, n + 1, picks[1..], if IsTerrible(c.info[id], now) then chosen else chosen + [id], quota, now);
    }
  }

  /** Distinct entries found before position `n` of the random vector. */
  ghost predicate Chosen(b: Book, ids: seq<int>, n: int, now: int) {
    && (forall i :: 0 <= i < |ids| ==>
          ids[i] in b.info && b.info[ids[i]].randomPos < n && !IsTerrible(b.info[ids[i]], now))
    && (forall i, j :: 0 <= i < j < |ids| ==> ids[i] != ids[j])
  }

  lemma ChosenStep(b: Book, c: Book, chosen: seq<int>, n: nat, k: int, now: int)
    requires Linked(b) && n <= k < |b.random| && b.random[n] in b.info && b.random[k] in b.info
    requires c == SwapRandom(b, n, k) && Linked(c) && Chosen(b, chosen, n, now)
    ensures c.random[n] in c.info
    ensures Chosen(c, if IsTerrible(c.info[c.random[n]], now) then chosen else chosen + [c.random[n]], n + 1, now)
  {
    assert RandomLinked(b, n) && RandomLinked(b, k) && RandomLinked(c, n);
  }

  // ----- runs

  datatype Op =
    | OpAdd(a: Address, source: NetAddr, penalty: int, now: int, draw: nat)
    | OpGood(net: NetAddr, port: nat, time: int)
    | OpAttempt(net: NetAddr, port: nat, countFailure: bool, time: int)
    | OpConnected(net: NetAddr, port: nat, time: int)
    | OpServices(net: NetAddr, port: nat, services: set<nat>)
    | OpGetAddr(picks: seq<int>, now: int)

  ghost predicate Legal(b: Book, op: Op) {
    match op
    case OpGood(_, _, time) => time > 0
    case OpAttempt(_, _, _, time) => time >= 0
    case OpGetAddr(picks, _) => Picks(b, picks, 0)
    case _ => true
  }

  ghost function Step(b: Book, h: Hashing, op: Op): Book
    requires Consistent(b, h) && Legal(b, op)
  {
    match op
    case OpAdd(a, source, penalty, now, draw) => Add(b, h, a, source, penalty, now, draw).0
    case OpGood(net, port, time) => Good(b, h, net, port, time)
    case OpAttempt(net, port, countFailure, time) => Attempt(b, net, port, countFailure, time)
    case OpConnected(net, port, time) => Connected(b, net, port, time)
    case OpServices(net, port, services) => SetServices(b, net, port, services)
    case OpGetAddr(picks, now) => Select(b, 0, picks, [], Quota(b), now).0
  }

  lemma StepKeeps(b: Book, h: Hashing, op: Op)
    requires Consistent(b, h) && Legal(b, op)
    ensures Consistent(Step(b, h, op), h)
  {
    match op
    case OpAdd(a, source, penalty, now, draw) => AddKeeps(b, h, a, source, penalty, now, draw);
    case OpGood(net, port, time) => GoodKeeps(b, h, net, port, time);
    case OpAttempt(net, port, countFailure, time) => MarksKeep(b, h, net, port, countFailure, time, {});
    case OpConnected(net, port, time) => MarksKeep(b, h, net, port, false, time, {});
    case OpServices(net, port, services) => MarksKeep(b, h, net, port, false, 0, services);
    case OpGetAddr(picks, now) => SelectKeeps(b, h, 0, picks, [], Quota(b), now);
  }

  ghost predicate LegalRun(b: Book, h: Hashing, ops: seq<Op>)
    requires Consistent(b, h)
    decreases |ops|
  {
    ops == [] || (Legal(b, ops[0]) && (StepKeeps(b, h, ops[0]); LegalRun(Step(b, h, ops[0]), h, ops[1..])))
  }

  ghost function Run(b: Book, h: Hashing, ops: seq<Op>): Book
    requires Consistent(b, h) && LegalRun(b, h, ops)
    decreases |ops|
  {
    if ops == [] then b else
    StepKeeps(b, h, ops[0]);
    Run(Step(b, h, ops[0]), h, ops[1..])
  }

  lemma FreshConsistent(h: Hashing)
    ensures Consistent(EMPTY_BOOK, h)
  {
    assert Tried(EMPTY_BOOK.info) == {} && Untried(EMPTY_BOOK.info) == {};
  }

  /** Every run keeps all the conditions of the consistency check. */
  lemma {:induction false} RunKeeps(b: Book, h: Hashing, ops: seq<Op>)
    requires Consistent(b, h) && LegalRun(b, h, ops)
    ensures Consistent(Run(b, h, ops), h)
    decreases |ops|
  {
    if ops != [] {
      StepKeeps(b, h, ops[0]);
      RunKeeps(Step(b, h, ops[0]), h, ops[1..]);
    }
  }
}

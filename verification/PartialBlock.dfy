/** The receiver of compact blocks. */
module PartialBlock {
  import opened Wrappers
  import opened PartialBlockModel

  /** A slot is free or holds a transaction the receiver had under the short id. */
  ghost predicate OneBacked<T(!new), H(!new)>(slot: Option<T>, id: nat, shortId: H -> nat, entries: seq<Entry<T, H>>) {
    slot.Some? ==> exists i :: 0 <= i < |entries| && shortId(entries[i].hash) == id && entries[i].tx == slot.value
  }

  /** Slots after the scans: what was prefilled stays, and the free position of every
      short id is free or backed. */
  ghost predicate Backed<T(!new), H(!new)>(base: seq<Option<T>>, slots: seq<Option<T>>, ids: seq<nat>,
                                           shortId: H -> nat, entries: seq<Entry<T, H>>) {
    && |slots| == |base| && |Unfilled(base)| == |ids|
    && (forall p :: 0 <= p < |base| && base[p].Some? ==> slots[p] == base[p])
    && (forall i {:trigger ids[i]} :: 0 <= i < |ids| ==> OneBacked(slots[Unfilled(base)[i]], ids[i], shortId, entries))
  }

  /** The ids with their positions. */
  ghost predicate Mapped<T>(base: seq<Option<T>>, ids: seq<nat>, m: map<nat, nat>) {
    && |Unfilled(base)| == |ids| && Distinct(ids) && m == IdMap(ids, Unfilled(base), |ids|)
  }

  lemma UnfilledDistinct<T>(slots: seq<Option<T>>, i: nat, j: nat)
    requires i < j < |Unfilled(slots)|
    ensures Unfilled(slots)[i] < Unfilled(slots)[j]
    decreases |slots|
  {
    var n := |slots| - 1;
    if j < |Unfilled(slots[..n])| {
      UnfilledDistinct(slots[..n], i, j);
    }
  }

  /** An id of the map belongs to one short id, and its position is free in the message. */
  lemma MappedAt<T>(base: seq<Option<T>>, ids: seq<nat>, m: map<nat, nat>, id: nat) returns (i: nat)
    requires Mapped(base, ids, m) && id in m
    ensures i < |ids| && ids[i] == id && m[id] == Unfilled(base)[i] < |base| && base[m[id]].None?
  {
    IdMapKeys(ids, Unfilled(base), |ids|, id);
    assert ids[..|ids|] == ids;
    i :| 0 <= i < |ids| && ids[i] == id;
    IdMapAt(ids, Unfilled(base), |ids|, i);
    UnfilledIs(base, m[id]);
  }

  ghost predicate NoneOf<T(!new), H(!new)>(id: nat, shortId: H -> nat, entries: seq<Entry<T, H>>) {
    forall k :: 0 <= k < |entries| ==> shortId(entries[k].hash) != id
  }

  /** Two entries have the id: two of the first `known`, or two different ones. */
  ghost predicate Clash<T(!new), H(!new)>(id: nat, shortId: H -> nat, witnessHash: T -> H,
                                          entries: seq<Entry<T, H>>, known: nat) {
    exists j, k :: 0 <= j < k < |entries| && ClashAt(id, shortId, witnessHash, entries, known, j, k)
  }

  ghost predicate ClashAt<T(!new), H(!new)>(id: nat, shortId: H -> nat, witnessHash: T -> H,
                                            entries: seq<Entry<T, H>>, known: nat, j: nat, k: nat)
    requires j < k < |entries|
  {
    && shortId(entries[j].hash) == id && shortId(entries[k].hash) == id
    && (k < known || witnessHash(entries[j].tx) != witnessHash(entries[k].tx))
  }

  /** A slot is only left free when nothing was offered for it or too much was. */
  ghost predicate Explained<T(!new), H(!new)>(base: seq<Option<T>>, slots: seq<Option<T>>, ids: seq<nat>,
                                              shortId: H -> nat, witnessHash: T -> H,
                                              entries: seq<Entry<T, H>>, known: nat) {
    && |slots| == |base| && |Unfilled(base)| == |ids|
    && forall i {:trigger ids[i]} :: 0 <= i < |ids| && slots[Unfilled(base)[i]].None? ==>
         NoneOf(ids[i], shortId, entries) || Clash(ids[i], shortId, witnessHash, entries, known)
  }

  /** One slot after `n` entries were offered; `had` says that it was filled at some time. */
  ghost predicate Slotwise<T(!new), H(!new)>(slot: Option<T>, had: bool, id: nat, shortId: H -> nat,
                                             witnessHash: T -> H, entries: seq<Entry<T, H>>, known: nat, n: nat)
    requires n <= |entries|
  {
    && OneBacked(slot, id, shortId, entries[..n])
    && (slot.None? ==>
          if had then Clash(id, shortId, witnessHash, entries, known) else NoneOf(id, shortId, entries[..n]))
    && (!had ==> slot.None?)
  }

  ghost predicate Scanned<T(!new), H(!new)>(base: seq<Option<T>>, slots: seq<Option<T>>, have: seq<bool>, ids: seq<nat>,
                                            shortId: H -> nat, witnessHash: T -> H,
                                            entries: seq<Entry<T, H>>, known: nat, n: nat) {
    && n <= |entries| && |slots| == |base| == |have| && |Unfilled(base)| == |ids|
    && (forall p :: 0 <= p < |base| && base[p].Some? ==> slots[p] == base[p])
    && (forall i {:trigger ids[i]} :: 0 <= i < |ids| ==>
          Slotwise(slots[Unfilled(base)[i]], have[Unfilled(base)[i]], ids[i], shortId, witnessHash, entries, known, n))
  }

  /** An entry with another id, or for a slot that has been filled. */
  lemma SlotwiseOn<T(!new), H(!new)>(slot: Option<T>, had: bool, id: nat, shortId: H -> nat, witnessHash: T -> H,
                                     entries: seq<Entry<T, H>>, known: nat, n: nat, n': nat)
    requires n <= n' <= |entries| && Slotwise(slot, had, id, shortId, witnessHash, entries, known, n)
    requires had || forall k :: n <= k < n' ==> shortId(entries[k].hash) != id
    ensures Slotwise(slot, had, id, shortId, witnessHash, entries, known, n')
  {
    if slot.Some? {
      var j :| 0 <= j < n && shortId(entries[..n][j].hash) == id && entries[..n][j].tx == slot.value;
      assert entries[..n'][j] == entries[..n][j];
    } else if !had {
      forall k | 0 <= k < n' ensures shortId(entries[..n'][k].hash) != id {
        assert k < n ==> entries[..n'][k] == entries[..n][k];
      }
    }
  }

  lemma SlotwiseTake<T(!new), H(!new)>(id: nat, shortId: H -> nat, witnessHash: T -> H,
                                       entries: seq<Entry<T, H>>, known: nat, n: nat)
    requires n < |entries| && shortId(entries[n].hash) == id
    ensures Slotwise(Some(entries[n].tx), true, id, shortId, witnessHash, entries, known, n + 1)
  {
    assert entries[..n + 1][n] == entries[n];
  }

  lemma SlotwiseClash<T(!new), H(!new)>(slot: Option<T>, id: nat, shortId: H -> nat, witnessHash: T -> H,
                                        entries: seq<Entry<T, H>>, known: nat, n: nat)
    requires n < |entries| && shortId(entries[n].hash) == id
    requires Slotwise(slot, true, id, shortId, witnessHash, entries, known, n) && slot.Some?
    requires n < known || witnessHash(slot.value) != witnessHash(entries[n].tx)
    ensures Slotwise(None, true, id, shortId, witnessHash, entries, known, n + 1)
  {
    var j :| 0 <= j < n && shortId(entries[..n][j].hash) == id && entries[..n][j].tx == slot.value;
    assert ClashAt(id, shortId, witnessHash, entries, known, j, n);
  }

  /** One entry changes the slot of its id and no other. */
  lemma ScannedOn<T(!new), H(!new)>(base: seq<Option<T>>, slots: seq<Option<T>>, have: seq<bool>, ids: seq<nat>,
                                    shortId: H -> nat, witnessHash: T -> H,
                                    entries: seq<Entry<T, H>>, known: nat, n: nat, i: nat, v: Option<T>)
    requires Scanned(base, slots, have, ids, shortId, witnessHash, entries, known, n) && n < |entries|
    requires Distinct(ids) && i < |ids| && shortId(entries[n].hash) == ids[i] && base[Unfilled(base)[i]].None?
    requires Slotwise(v, true, ids[i], shortId, witnessHash, entries, known, n + 1)
    ensures var p := Unfilled(base)[i];
      Scanned(base, slots[p := v], have[p := true], ids, shortId, witnessHash, entries, known, n + 1)
  {
    var p := Unfilled(base)[i];
    var next, had := slots[p := v], have[p := true];
    forall j | 0 <= j < |ids|
      ensures Slotwise(next[Unfilled(base)[j]], had[Unfilled(base)[j]], ids[j],
                       shortId, witnessHash, entries, known, n + 1)
    {
      if j != i {
        if j < i {
          UnfilledDistinct(base, j, i);
        } else {
          UnfilledDistinct(base, i, j);
        }
        SlotwiseOn(slots[Unfilled(base)[j]], have[Unfilled(base)[j]], ids[j],
                   shortId, witnessHash, entries, known, n, n + 1);
      }
    }
  }

  /** Entries that no free slot waits for change nothing. */
  lemma ScannedPast<T(!new), H(!new)>(base: seq<Option<T>>, slots: seq<Option<T>>, have: seq<bool>, ids: seq<nat>,
                                      shortId: H -> nat, witnessHash: T -> H,
                                      entries: seq<Entry<T, H>>, known: nat, n: nat, n': nat)
    requires Scanned(base, slots, have, ids, shortId, witnessHash, entries, known, n) && n <= n' <= |entries|
    requires forall i, k :: 0 <= i < |ids| && n <= k < n' ==>
      have[Unfilled(base)[i]] || shortId(entries[k].hash) != ids[i]
    ensures Scanned(base, slots, have, ids, shortId, witnessHash, entries, known, n')
  {
    forall j | 0 <= j < |ids|
      ensures Slotwise(slots[Unfilled(base)[j]], have[Unfilled(base)[j]], ids[j],
                       shortId, witnessHash, entries, known, n')
    {
      SlotwiseOn(slots[Unfilled(base)[j]], have[Unfilled(base)[j]], ids[j],
                 shortId, witnessHash, entries, known, n, n');
    }
  }

  lemma ScannedAll<T(!new), H(!new)>(base: seq<Option<T>>, slots: seq<Option<T>>, have: seq<bool>, ids: seq<nat>,
                                     shortId: H -> nat, witnessHash: T -> H, entries: seq<Entry<T, H>>, known: nat)
    requires Scanned(base, slots, have, ids, shortId, witnessHash, entries, known, |entries|)
    ensures Backed(base, slots, ids, shortId, entries)
    ensures Explained(base, slots, ids, shortId, witnessHash, entries, known)
  {
    assert entries[..|entries|] == entries;
    forall i | 0 <= i < |ids|
      ensures OneBacked(slots[Unfilled(base)[i]], ids[i], shortId, entries)
      ensures slots[Unfilled(base)[i]].None? ==>
        NoneOf(ids[i], shortId, entries) || Clash(ids[i], shortId, witnessHash, entries, known)
    {
      assert Slotwise(slots[Unfilled(base)[i]], have[Unfilled(base)[i]], ids[i],
                      shortId, witnessHash, entries, known, |entries|);
    }
  }

  lemma ScannedNone<T(!new), H(!new)>(base: seq<Option<T>>, have: seq<bool>, ids: seq<nat>,
                                      shortId: H -> nat, witnessHash: T -> H, entries: seq<Entry<T, H>>, known: nat)
    requires |Unfilled(base)| == |ids| && |have| == |base| && forall p :: 0 <= p < |have| ==> !have[p]
    ensures Scanned(base, base, have, ids, shortId, witnessHash, entries, known, 0)
  {
    forall i | 0 <= i < |ids|
      ensures Slotwise(base[Unfilled(base)[i]], have[Unfilled(base)[i]], ids[i],
                       shortId, witnessHash, entries, known, 0)
    {
      UnfilledIs(base, Unfilled(base)[i]);
    }
  }

  lemma NotMapped<T>(base: seq<Option<T>>, ids: seq<nat>, m: map<nat, nat>, id: nat)
    requires Mapped(base, ids, m) && id !in m
    ensures id !in ids
  {
    IdMapKeys(ids, Unfilled(base), |ids|, id);
    assert ids[..|ids|] == ids;
  }

  /** Slots that keep a base and hold one thing more hold at least one more. */
  lemma {:induction false} CountAtLeast<T>(base: seq<Option<T>>, slots: seq<Option<T>>, p: nat)
    requires |base| == |slots| && p < |slots| && base[p].None? && slots[p].Some?
    requires forall q :: 0 <= q < |base| && base[q].Some? ==> slots[q] == base[q]
    ensures Filled(slots) > Filled(base)
  {
    var n := |slots| - 1;
    if p == n {
      CountMonotone(base[..n], slots[..n]);
    } else {
      CountAtLeast(base[..n], slots[..n], p);
    }
  }

  lemma {:induction false} CountMonotone<T>(base: seq<Option<T>>, slots: seq<Option<T>>)
    requires |base| == |slots|
    requires forall q :: 0 <= q < |base| && base[q].Some? ==> slots[q] == base[q]
    ensures Filled(slots) >= Filled(base)
  {
    if base != [] {
      CountMonotone(base[..|base| - 1], slots[..|base| - 1]);
    }
  }

  lemma {:induction false} AllFilled<T>(slots: seq<Option<T>>, p: nat)
    requires Filled(slots) == |slots| && p < |slots|
    ensures slots[p].Some?
  {
    var n := |slots| - 1;
    FilledAtMost(slots[..n]);
    if p < n {
      AllFilled(slots[..n], p);
    }
  }

  lemma {:induction false} FilledAtMost<T>(slots: seq<Option<T>>)
    ensures Filled(slots) <= |slots|
  {
    if slots != [] {
      FilledAtMost(slots[..|slots| - 1]);
    }
  }

  class PartiallyDownloadedBlock<T(!new), H(!new, ==)> {
    const isNull: T -> bool
    const witnessHash: T -> H
    const maxTransactions: nat
    var headerNull: bool
    var slots: seq<Option<T>>
    var prefilledCount: nat
    var mempoolCount: nat

    constructor (isNull: T -> bool, witnessHash: T -> H, maxTransactions: nat)
      ensures this.isNull == isNull && this.witnessHash == witnessHash && this.maxTransactions == maxTransactions
      ensures headerNull && slots == [] && mempoolCount == 0
    {
      this.isNull, this.witnessHash, this.maxTransactions := isNull, witnessHash, maxTransactions;
      headerNull, slots, prefilledCount, mempoolCount := true, [], 0, 0;
    }

    /** The prefilled transactions, each after a number of skipped positions. */
    method PlacePrefilled(msg: Message<T>) returns (ok: bool)
      requires forall i :: 0 <= i < |msg.prefilled| ==> msg.prefilled[i].index < LIMIT16
      modifies this`slots
      ensures ok <==> PrefilledOk(isNull, msg, |msg.prefilled|)
      ensures ok ==> slots == Place(isNull, msg, |msg.prefilled|)
    {
      slots := seq(Total(msg), _ => None);
      var last, i: nat := -1, 0;
      while i < |msg.prefilled|
        invariant i <= |msg.prefilled| && PrefilledOk(isNull, msg, i)
        invariant last == Position(msg.prefilled, i) && slots == Place(isNull, msg, i)
      {
        if isNull(msg.prefilled[i].tx) {
          assert !PrefilledAt(isNull, msg, i);
          return false;
        }
        last := last + msg.prefilled[i].index + 1;
        if last > 0xffff || last > |msg.shortIds| + i {
          assert !PrefilledAt(isNull, msg, i);
          return false;
        }
        PositionFromZero(msg.prefilled, i + 1);
        assert PrefilledAt(isNull, msg, i);
        slots := slots[last := Some(msg.prefilled[i].tx)];
        i := i + 1;
      }
      ok := true;
    }

    /** The i-th short id gets the i-th free position. */
    method MapIds(ids: seq<nat>, crowded: nat -> bool) returns (m: map<nat, nat>, ok: bool)
      requires |Unfilled(slots)| == |ids| && |slots| <= LIMIT16
      ensures ok ==> m == IdMap(ids, Unfilled(slots), |ids|)
      ensures (forall i :: 0 <= i < |ids| ==> !crowded(i)) ==> ok
    {
      m := map[];
      var offset: nat, i: nat := 0, 0;
      while i < |ids|
        invariant i <= |ids| && i + offset <= |slots| && |Unfilled(slots[..i + offset])| == i
        invariant m == IdMap(ids, Unfilled(slots), i)
      {
        offset := NextFree(i, offset);
        var p := (i + offset) % LIMIT16;
        assert p == i + offset;
        m := m[ids[i] := p];
        if crowded(i) {
          return m, false;
        }
        UnfilledNext(slots, i + offset);
        i := i + 1;
      }
      ok := true;
    }

    /** Filled positions are passed over; there is always a free one. */
    method NextFree(i: nat, from: nat) returns (offset: nat)
      requires i < |Unfilled(slots)| && i + from <= |slots| && |Unfilled(slots[..i + from])| == i
      ensures i + offset < |slots| && slots[i + offset].None? && |Unfilled(slots[..i + offset])| == i
      ensures Unfilled(slots)[i] == i + offset
    {
      offset := from;
      assert slots[..|slots|] == slots;
      while slots[i + offset].Some?
        invariant i + offset < |slots| && |Unfilled(slots[..i + offset])| == i
        decreases |slots| - offset
      {
        UnfilledNext(slots, i + offset);
        offset := offset + 1;
      }
      UnfilledNext(slots, i + offset);
      UnfilledPrefix(slots, i + offset + 1);
    }

    /** What holds after `n` offers, of which the first `known` are from the pool. */
    ghost predicate Scanning(base: seq<Option<T>>, ids: seq<nat>, m: map<nat, nat>, have: seq<bool>,
                             shortId: H -> nat, entries: seq<Entry<T, H>>, known: nat, n: nat)
      reads this
    {
      && Mapped(base, ids, m)
      && Scanned(base, slots, have, ids, shortId, witnessHash, entries, known, n)
      && prefilledCount == Filled(base)
      && Filled(slots) == prefilledCount + mempoolCount
    }

    /** A transaction is offered under its short id: the first for a position is taken, and
        another one for it empties the position, unless only different ones count and it
        is the same. */
    method Offer(ghost base: seq<Option<T>>, ghost ids: seq<nat>, m: map<nat, nat>, have: seq<bool>, shortId: H -> nat,
                 ghost entries: seq<Entry<T, H>>, ghost known: nat, ghost n: nat, e: Entry<T, H>, different: bool)
      returns (now: seq<bool>)
      requires Scanning(base, ids, m, have, shortId, entries, known, n)
      requires n < |entries| && e == entries[n] && (different <==> n >= known)
      modifies this`slots, this`mempoolCount
      ensures Scanning(base, ids, m, now, shortId, entries, known, n + 1)
    {
      now := have;
      var id := shortId(e.hash);
      if id !in m {
        NotMapped(base, ids, m, id);
        ScannedPast(base, slots, have, ids, shortId, witnessHash, entries, known, n, n + 1);
        return;
      }
      ghost var i := MappedAt(base, ids, m, id);
      var p := m[id];
      assert Slotwise(slots[p], have[p], ids[i], shortId, witnessHash, entries, known, n);
      if !have[p] {
        SlotwiseTake(id, shortId, witnessHash, entries, known, n);
        ScannedOn(base, slots, have, ids, shortId, witnessHash, entries, known, n, i, Some(e.tx));
        FilledUpdate(slots, p, Some(e.tx));
        slots := slots[p := Some(e.tx)];
        now := have[p := true];
        mempoolCount := mempoolCount + 1;
      } else {
        assert have[p := true] == have;
        if slots[p].Some? && (!different || witnessHash(slots[p].value) != witnessHash(e.tx)) {
          SlotwiseClash(slots[p], id, shortId, witnessHash, entries, known, n);
          ScannedOn(base, slots, have, ids, shortId, witnessHash, entries, known, n, i, None);
          FilledUpdate(slots, p, None);
          CountAtLeast(base, slots, p);
          slots := slots[p := None];
          mempoolCount := mempoolCount - 1;
        } else {
          SlotwiseOn(slots[p], true, id, shortId, witnessHash, entries, known, n, n + 1);
          ScannedOn(base, slots, have, ids, shortId, witnessHash, entries, known, n, i, slots[p]);
          assert slots[p := slots[p]] == slots;
        }
      }
    }

    /** One offer; `full` says that no short id is left without a transaction, and then
        the offers up to `end` may be passed over. */
    method OfferNext(ghost base: seq<Option<T>>, ghost ids: seq<nat>, m: map<nat, nat>, have: seq<bool>,
                     shortId: H -> nat, ghost entries: seq<Entry<T, H>>, ghost known: nat, ghost n: nat, ghost end: nat,
                     e: Entry<T, H>, different: bool)
      returns (now: seq<bool>, full: bool)
      requires Scanning(base, ids, m, have, shortId, entries, known, n)
      requires n < end <= |entries| && e == entries[n] && (different <==> n >= known)
      modifies this`slots, this`mempoolCount
      ensures Scanning(base, ids, m, now, shortId, entries, known, if full then end else n + 1)
    {
      now := Offer(base, ids, m, have, shortId, entries, known, n, e, different);
      full := mempoolCount == |m|;
      if full {
        Full(base, ids, m, now, shortId, entries, known, n + 1, end);
      }
    }

    /** The transactions are offered in order until every short id has one. */
    method Scan(ghost base: seq<Option<T>>, ghost ids: seq<nat>, m: map<nat, nat>, have: seq<bool>, shortId: H -> nat,
                ghost entries: seq<Entry<T, H>>, ghost known: nat, ghost n: nat, offers: seq<Entry<T, H>>,
                different: bool)
      returns (now: seq<bool>)
      requires Scanning(base, ids, m, have, shortId, entries, known, n)
      requires n + |offers| <= |entries|
      requires forall k {:trigger offers[k]} :: 0 <= k < |offers| ==> offers[k] == entries[n + k]
      requires if different then n >= known else n + |offers| <= known
      modifies this`slots, this`mempoolCount
      ensures Scanning(base, ids, m, now, shortId, entries, known, n + |offers|)
    {
      now := have;
      var i, full := 0, false;
      while i < |offers| && !full
        invariant 0 <= i <= |offers|
        invariant Scanning(base, ids, m, now, shortId, entries, known, if full then n + |offers| else n + i)
      {
        now, full := OfferNext(base, ids, m, now, shortId, entries, known, n + i, n + |offers|, offers[i], different);
        i := i + 1;
      }
    }

    /** When every short id has a transaction, no further offer is needed. */
    lemma Full(base: seq<Option<T>>, ids: seq<nat>, m: map<nat, nat>, have: seq<bool>, shortId: H -> nat,
               entries: seq<Entry<T, H>>, known: nat, n: nat, n': nat)
      requires Scanning(base, ids, m, have, shortId, entries, known, n) && n <= n' <= |entries| && mempoolCount == |m|
      ensures Scanning(base, ids, m, have, shortId, entries, known, n')
    {
      IdMapSize(ids, Unfilled(base), |ids|);
      assert ids[..|ids|] == ids;
      CountsAdd(base);
      forall i | 0 <= i < |ids| ensures have[Unfilled(base)[i]] {
        AllFilled(slots, Unfilled(base)[i]);
        assert Slotwise(slots[Unfilled(base)[i]], have[Unfilled(base)[i]], ids[i],
                        shortId, witnessHash, entries, known, n);
      }
      ScannedPast(base, slots, have, ids, shortId, witnessHash, entries, known, n, n');
    }

    ghost predicate Refused(msg: Message<T>) {
      || msg.headerNull || Total(msg) == 0 || Total(msg) > maxTransactions
      || !PrefilledOk(isNull, msg, |msg.prefilled|)
    }

    /** The message is read into the slots. The model says nothing about blocks whose
        positions do not fit 16 bits. */
    method InitData(msg: Message<T>, shortId: H -> nat, pool: seq<Entry<T, H>>, extra: seq<Entry<T, H>>,
                    crowded: nat -> bool)
      returns (status: Status)
      requires headerNull && slots == [] && mempoolCount == 0
      requires forall i :: 0 <= i < |msg.prefilled| ==> msg.prefilled[i].index < LIMIT16
      modifies this
      ensures status == Invalid <==> Refused(msg)
      ensures msg.headerNull || (msg.shortIds == [] && msg.prefilled == []) ==> status == Invalid
      ensures |msg.shortIds| + |msg.prefilled| > maxTransactions ==> status == Invalid
      ensures status == Unspecified <==> !Refused(msg) && Total(msg) > LIMIT16
      ensures status == Ok ==> !Refused(msg) && Distinct(msg.shortIds) && !headerNull
      ensures status == Ok ==> Backed(Place(isNull, msg, |msg.prefilled|), slots, msg.shortIds, shortId, pool + extra)
      ensures status == Ok ==>
        Explained(Place(isNull, msg, |msg.prefilled|), slots, msg.shortIds, shortId, witnessHash, pool + extra, |pool|)
      ensures status == Ok ==> prefilledCount + mempoolCount + |Unfilled(slots)| == |slots| == Total(msg)
      ensures status in {Ok, Invalid, Unspecified, Failed}
      ensures status == Failed ==> !Distinct(msg.shortIds) || exists i :: 0 <= i < |msg.shortIds| && crowded(i)
    {
      if msg.headerNull || Total(msg) == 0 || Total(msg) > maxTransactions {
        return Invalid;
      }
      headerNull := false;
      var ok := PlacePrefilled(msg);
      if !ok {
        return Invalid;
      }
      prefilledCount := |msg.prefilled|;
      if Total(msg) > LIMIT16 {
        return Unspecified;
      }
      FreePositions(isNull, msg);
      FilledPlace(isNull, msg, |msg.prefilled|);
      ok := Collect(msg.shortIds, shortId, pool, extra, crowded);
      status := if ok then Ok else Failed;
    }

    /** Positions for the short ids, and transactions for the positions. */
    method Collect(ids: seq<nat>, shortId: H -> nat, pool: seq<Entry<T, H>>, extra: seq<Entry<T, H>>,
                   crowded: nat -> bool)
      returns (ok: bool)
      requires |Unfilled(slots)| == |ids| && |slots| <= LIMIT16 && mempoolCount == 0 && prefilledCount == Filled(slots)
      modifies this`slots, this`mempoolCount
      ensures ok ==> Distinct(ids) && Backed(old(slots), slots, ids, shortId, pool + extra)
      ensures ok ==> Explained(old(slots), slots, ids, shortId, witnessHash, pool + extra, |pool|)
      ensures ok ==> prefilledCount + mempoolCount + |Unfilled(slots)| == |slots|
      ensures !ok ==> !Distinct(ids) || exists i :: 0 <= i < |ids| && crowded(i)
    {
      var m;
      m, ok := MapIds(ids, crowded);
      if !ok {
        return;
      }
      IdMapSize(ids, Unfilled(slots), |ids|);
      assert ids[..|ids|] == ids;
      if |m| != |ids| {
        return false;
      }
      ScanAll(ids, m, shortId, pool, extra);
      CountsAdd(slots);
    }

    method ScanAll(ghost ids: seq<nat>, m: map<nat, nat>, shortId: H -> nat, pool: seq<Entry<T, H>>,
                   extra: seq<Entry<T, H>>)
      requires Mapped(slots, ids, m) && mempoolCount == 0
      requires prefilledCount == Filled(slots)
      modifies this`slots, this`mempoolCount
      ensures Backed(old(slots), slots, ids, shortId, pool + extra)
      ensures Explained(old(slots), slots, ids, shortId, witnessHash, pool + extra, |pool|)
      ensures Filled(slots) == prefilledCount + mempoolCount
    {
      ghost var base := slots;
      ghost var entries, known := pool + extra, |pool|;
      var have := seq(|slots|, _ => false);
      ScannedNone(base, have, ids, shortId, witnessHash, entries, known);
      have := Scan(base, ids, m, have, shortId, entries, known, 0, pool, false);
      have := Scan(base, ids, m, have, shortId, entries, known, known, extra, true);
      ScannedAll(base, slots, have, ids, shortId, witnessHash, entries, known);
    }

    /** One transaction for a position: the one at hand, or the next that was sent. */
    method TakeTransaction(i: nat, missing: seq<T>, k: nat) returns (tx: Option<T>, used: nat)
      requires i < |slots|
      modifies this`slots
      ensures old(slots[i]).Some? ==> tx == old(slots[i]) && used == k && slots == old(slots)[i := None]
      ensures old(slots[i]).None? ==> slots == old(slots)
      ensures old(slots[i]).None? && k < |missing| ==> tx == Some(missing[k]) && used == k + 1
      ensures old(slots[i]).None? && k >= |missing| ==> tx == None
    {
      if slots[i].None? {
        if |missing| <= k {
          return None, k;
        }
        return Some(missing[k]), k + 1;
      }
      tx, used := slots[i], k;
      slots := slots[i := None];
    }

    /** The block from the slots and the transactions sent for the free positions: there
        must be exactly as many. */
    method FillBlock(missing: seq<T>, check: seq<T> -> Status) returns (status: Status, vtx: seq<T>)
      requires !headerNull
      modifies this`slots, this`headerNull
      ensures Fill(old(slots), missing).None? ==> status == Invalid
      ensures Fill(old(slots), missing).Some? ==> Some(vtx) == Fill(old(slots), missing) && status == check(vtx)
      ensures |missing| >= |Unfilled(old(slots))| ==> headerNull && slots == []
    {
      ghost var was := slots;
      vtx := [];
      var i: nat, k: nat := 0, 0;
      FillNeeds(was, missing);
      while i < |slots|
        invariant i <= |slots| == |was| && slots[i..] == was[i..] && k <= |missing| && !headerNull
        invariant k == |Unfilled(was[..i])| && Fill(was[..i], missing[..k]) == Some(vtx)
      {
        assert slots[i] == slots[i..][0] == was[i..][0];
        FillOn(was, missing, i, k, vtx);
        var tx, used := TakeTransaction(i, missing, k);
        if tx.None? {
          UnfilledPrefix(was, i + 1);
          return Invalid, vtx;
        }
        vtx := vtx + [tx.value];
        assert slots[i + 1..] == was[i..][1..];
        assert was[i + 1..] == was[i..][1..];
        i, k := i + 1, used;
      }
      assert was[..i] == was;
      headerNull, slots := true, [];
      if |missing| != k {
        return Invalid, vtx;
      }
      assert missing[..k] == missing;
      status := check(vtx);
    }
  }

  lemma FillOn<T>(slots: seq<Option<T>>, missing: seq<T>, i: nat, k: nat, vtx: seq<T>)
    requires i < |slots| && k <= |missing| && k == |Unfilled(slots[..i])| && Fill(slots[..i], missing[..k]) == Some(vtx)
    ensures slots[i].Some? ==>
      |Unfilled(slots[..i + 1])| == k && Fill(slots[..i + 1], missing[..k]) == Some(vtx + [slots[i].value])
    ensures slots[i].None? ==> |Unfilled(slots[..i + 1])| == k + 1
    ensures slots[i].None? && k < |missing| ==> Fill(slots[..i + 1], missing[..k + 1]) == Some(vtx + [missing[k]])
  {
    UnfilledNext(slots, i);
    assert slots[..i + 1][..i] == slots[..i];
    if k < |missing| {
      assert missing[..k + 1][..k] == missing[..k];
    }
  }

  // ----- an honest sender

  /** The message of a block: its first transaction and the short ids of the others. */
  function Announce<T, H>(vtx: seq<T>, hash: T -> H, shortId: H -> nat): Message<T>
    requires vtx != []
  {
    Message(false, seq(|vtx| - 1, i requires 0 <= i < |vtx| - 1 => shortId(hash(vtx[i + 1]))), [Prefilled(0, vtx[0])])
  }

  /** Whatever the receiver has under a short id of the block is that transaction. */
  ghost predicate Unambiguous<T(!new), H(!new)>(vtx: seq<T>, hash: T -> H, shortId: H -> nat,
                                                entries: seq<Entry<T, H>>) {
    forall i, k :: 0 <= i < |vtx| && 0 <= k < |entries| && shortId(entries[k].hash) == shortId(hash(vtx[i]))
      ==> entries[k].tx == vtx[i]
  }

  lemma AnnouncePlaces<T, H>(isNull: T -> bool, vtx: seq<T>, hash: T -> H, shortId: H -> nat)
    requires vtx != [] && !isNull(vtx[0])
    ensures var msg := Announce(vtx, hash, shortId);
      && PrefilledOk(isNull, msg, 1)
      && Place(isNull, msg, 1) == [Some(vtx[0])] + seq(|vtx| - 1, _ => None)
  {
    var msg := Announce(vtx, hash, shortId);
    assert Position(msg.prefilled, 1) == 0;
    assert PrefilledAt(isNull, msg, 0);
  }

  lemma {:induction false} FreeAfterFirst<T>(tx: T, n: nat)
    ensures var slots := [Some(tx)] + seq(n, _ => None);
      Unfilled(slots) == seq(n, i => i + 1)
  {
    var slots := [Some(tx)] + seq(n, _ => None);
    if n > 0 {
      FreeAfterFirst(tx, n - 1);
      assert slots[..n] == [Some(tx)] + seq(n - 1, _ => None);
    } else {
      assert slots[..0] == [];
    }
  }

  /** Backed slots of an honest message hold nothing but the block. */
  lemma HonestIsFaithful<T(!new), H(!new)>(isNull: T -> bool, vtx: seq<T>, hash: T -> H, shortId: H -> nat,
                                           entries: seq<Entry<T, H>>, slots: seq<Option<T>>)
    requires vtx != [] && !isNull(vtx[0]) && Unambiguous(vtx, hash, shortId, entries)
    requires PrefilledOk(isNull, Announce(vtx, hash, shortId), 1)
    requires Backed(Place(isNull, Announce(vtx, hash, shortId), 1), slots, Announce(vtx, hash, shortId).shortIds,
                    shortId, entries)
    ensures Faithful(slots, vtx)
  {
    var msg := Announce(vtx, hash, shortId);
    var base := Place(isNull, msg, 1);
    AnnouncePlaces(isNull, vtx, hash, shortId);
    FreeAfterFirst(vtx[0], |vtx| - 1);
    forall p | 0 <= p < |slots|
      ensures slots[p].None? || slots[p] == Some(vtx[p])
    {
      if p == 0 {
        assert base[0].Some?;
      } else {
        assert OneBacked(slots[Unfilled(base)[p - 1]], msg.shortIds[p - 1], shortId, entries);
      }
    }
  }

  /** A block is announced, completed from what the receiver has and what it then asks
      for, and rebuilt: the result is the block. */
  method SendCompact<T(!new), H(!new, ==)>(isNull: T -> bool, witnessHash: T -> H, maxTransactions: nat, vtx: seq<T>,
      hash: T -> H, shortId: H -> nat, pool: seq<Entry<T, H>>, extra: seq<Entry<T, H>>, crowded: nat -> bool,
      check: seq<T> -> Status) returns (init: Status, filled: Status, rebuilt: seq<T>)
    requires vtx != [] && !isNull(vtx[0]) && |vtx| <= maxTransactions && |vtx| <= LIMIT16
    requires Unambiguous(vtx, hash, shortId, pool + extra)
    ensures init == Ok ==> rebuilt == vtx && filled == check(vtx)
    ensures init != Ok ==> init == Failed
    ensures Distinct(Announce(vtx, hash, shortId).shortIds) && (forall i :: 0 <= i < |vtx| ==> !crowded(i)) ==>
      init == Ok
  {
    var msg := Announce(vtx, hash, shortId);
    AnnouncePlaces(isNull, vtx, hash, shortId);
    var receiver := new PartiallyDownloadedBlock<T, H>(isNull, witnessHash, maxTransactions);
    init := receiver.InitData(msg, shortId, pool, extra, crowded);
    if init != Ok {
      return init, Invalid, [];
    }
    HonestIsFaithful(isNull, vtx, hash, shortId, pool + extra, receiver.slots);
    FillRebuilds(receiver.slots, vtx);
    filled, rebuilt := receiver.FillBlock(At(vtx, Unfilled(receiver.slots)), check);
  }
}

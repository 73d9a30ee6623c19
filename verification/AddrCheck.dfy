/** The manager's own check, condition by condition. */
module AddrCheck {
  import opened AddrModel
  import opened AddrOps

  /** The conditions on an entry: errors -1 to -6, -8 and -14. */
  ghost predicate EntryPasses(b: Book, id: int)
    requires id in b.info
  {
    var e := b.info[id];
    && (e.inTried ==> e.lastSuccess != 0 && e.refCount == 0)
    && (!e.inTried ==> 1 <= e.refCount <= NEW_BUCKETS_PER_ADDRESS)
    && e.address.net in b.addr && b.addr[e.address.net] == id
    && 0 <= e.randomPos < |b.random| && b.random[e.randomPos] == id
    && e.lastTry >= 0 && e.lastSuccess >= 0
  }

  /** A slot of the tried table: errors -11, -17 and -18, the first also for an id met before. */
  ghost predicate TriedPasses(b: Book, h: Hashing, s: Slot)
    requires s in b.triedTable
  {
    var id := b.triedTable[s];
    && id in b.info && b.info[id].inTried
    && s.bucket == h.triedHash(b.info[id].address.net, b.info[id].address.port) % 256
    && s.pos == h.positionHash(false, s.bucket, b.info[id].address.net, b.info[id].address.port) % 64
    && forall t :: t in b.triedTable && b.triedTable[t] == id ==> t == s
  }

  /** A slot of the new table: errors -12 and -19. */
  ghost predicate NewPasses(b: Book, h: Hashing, s: Slot)
    requires s in b.newTable
  {
    var id := b.newTable[s];
    && id in b.info && !b.info[id].inTried
    && s.pos == h.positionHash(true, s.bucket, b.info[id].address.net, b.info[id].address.port) % 64
  }

  /** An entry is met as often as it should be: errors -13 and -15, and -12 for one too many. */
  ghost predicate MetPasses(b: Book, id: int)
    requires id in b.info
  {
    && (b.info[id].inTried ==> exists s :: s in b.triedTable && b.triedTable[s] == id)
    && (!b.info[id].inTried ==> |SlotsOf(b.newTable, id)| == b.info[id].refCount)
  }

  /** The check reports nothing. Errors -7, -9 and -10 are about the counters, and
      error -16 is about a key that was never drawn. */
  ghost predicate CheckPasses(b: Book, h: Hashing, nullKey: bool) {
    && !nullKey
    && |b.random| == b.nTried + b.nNew && |Tried(b.info)| == b.nTried && |Untried(b.info)| == b.nNew
    && (forall id :: id in b.info ==> EntryPasses(b, id) && MetPasses(b, id))
    && (forall s :: s in b.triedTable ==> TriedPasses(b, h, s))
    && (forall s :: s in b.newTable ==> NewPasses(b, h, s))
  }

  /** A consistent manager fails its check for a null key only. */
  lemma ConsistentPasses(b: Book, h: Hashing, nullKey: bool)
    requires Consistent(b, h)
    ensures CheckPasses(b, h, nullKey) <==> !nullKey
  {
    forall id | id in b.info
      ensures EntryPasses(b, id) && MetPasses(b, id)
    {
      EntryDoes(b, h, id);
    }
    forall s | s in b.triedTable
      ensures TriedPasses(b, h, s)
    {
      TriedDoes(b, h, s);
    }
    forall s | s in b.newTable
      ensures NewPasses(b, h, s)
    {
      assert NewSlotOk(b, h, s);
    }
  }

  lemma EntryDoes(b: Book, h: Hashing, id: int)
    requires Consistent(b, h) && id in b.info
    ensures EntryPasses(b, id) && MetPasses(b, id)
  {
    assert EntryLinked(b, id) && EntryTabled(b, h, id);
    if b.info[id].inTried {
      forall s | s in b.newTable
        ensures b.newTable[s] != id
      {
        assert NewSlotOk(b, h, s);
      }
      assert SlotsOf(b.newTable, id) == {};
    }
  }

  lemma TriedDoes(b: Book, h: Hashing, s: Slot)
    requires Consistent(b, h) && s in b.triedTable
    ensures TriedPasses(b, h, s)
  {
    assert TriedSlotOk(b, h, s);
    forall t | t in b.triedTable && b.triedTable[t] == b.triedTable[s]
      ensures t == s
    {
      assert TriedSlotOk(b, h, t);
    }
  }

  /** After every run from a fresh manager with a key the check reports nothing. */
  lemma RunPasses(h: Hashing, nullKey: bool, ops: seq<Op>)
    requires (FreshConsistent(h); LegalRun(EMPTY_BOOK, h, ops))
    ensures (FreshConsistent(h); CheckPasses(Run(EMPTY_BOOK, h, ops), h, nullKey) <==> !nullKey)
  {
    FreshConsistent(h);
    RunKeeps(EMPTY_BOOK, h, ops);
    ConsistentPasses(Run(EMPTY_BOOK, h, ops), h, nullKey);
  }
}

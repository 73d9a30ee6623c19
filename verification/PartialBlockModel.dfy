/** Compact blocks: which positions of a block the receiver fills from the message, which
    from transactions it has, and which must be sent. */
module PartialBlockModel {
  import opened Wrappers

  const LIMIT16: nat := 0x1_0000

  datatype Prefilled<T> = Prefilled(index: nat, tx: T)

  datatype Message<T> = Message(headerNull: bool, shortIds: seq<nat>, prefilled: seq<Prefilled<T>>)

  /** A transaction the receiver has, with the hash its short id is made from. */
  datatype Entry<T, H> = Entry(hash: H, tx: T)

  datatype Status = Ok | Invalid | Failed | CheckBlockFailed | Unspecified

  function Total<T>(msg: Message<T>): nat {
    |msg.shortIds| + |msg.prefilled|
  }

  // ----- prefilled positions

  /** Indexes count the positions skipped since the one before. */
  function Position<T>(prefilled: seq<Prefilled<T>>, n: nat): int
    requires n <= |prefilled|
  {
    if n == 0 then -1 else Position(prefilled, n - 1) + prefilled[n - 1].index + 1
  }

  predicate PrefilledAt<T>(isNull: T -> bool, msg: Message<T>, i: nat)
    requires i < |msg.prefilled|
  {
    var p := Position(msg.prefilled, i + 1);
    !isNull(msg.prefilled[i].tx) && p < LIMIT16 && p <= |msg.shortIds| + i
  }

  predicate PrefilledOk<T>(isNull: T -> bool, msg: Message<T>, n: nat)
    requires n <= |msg.prefilled|
  {
    forall i :: 0 <= i < n ==> PrefilledAt(isNull, msg, i)
  }

  lemma {:induction false} PositionFromZero<T>(prefilled: seq<Prefilled<T>>, n: nat)
    requires n <= |prefilled|
    ensures Position(prefilled, n) >= n - 1
  {
    if n > 0 {
      PositionFromZero(prefilled, n - 1);
    }
  }

  /** Skips that were taken between rising positions give the positions back. */
  lemma {:induction false} PositionsBack<T>(prefilled: seq<Prefilled<T>>, positions: seq<nat>, n: nat)
    requires n <= |prefilled| == |positions|
    requires forall i {:trigger prefilled[i]} :: 0 <= i < n ==>
      positions[i] == prefilled[i].index + (if i == 0 then 0 else positions[i - 1] + 1)
    ensures Position(prefilled, n) == if n == 0 then -1 else positions[n - 1]
  {
    if n > 0 {
      PositionsBack(prefilled, positions, n - 1);
      var last := prefilled[n - 1];
    }
  }

  function Place<T>(isNull: T -> bool, msg: Message<T>, n: nat): (slots: seq<Option<T>>)
    requires n <= |msg.prefilled| && PrefilledOk(isNull, msg, n)
    ensures |slots| == Total(msg)
  {
    if n == 0 then seq(Total(msg), _ => None)
    else
      PositionFromZero(msg.prefilled, n);
      assert PrefilledAt(isNull, msg, n - 1);
      Place(isNull, msg, n - 1)[Position(msg.prefilled, n) := Some(msg.prefilled[n - 1].tx)]
  }

  /** Nothing is placed after the last prefilled position. */
  lemma {:induction false} PlaceEnds<T>(isNull: T -> bool, msg: Message<T>, n: nat, p: nat)
    requires n <= |msg.prefilled| && PrefilledOk(isNull, msg, n) && Position(msg.prefilled, n) < p < Total(msg)
    ensures Place(isNull, msg, n)[p].None?
  {
    if n > 0 {
      PlaceEnds(isNull, msg, n - 1, p);
    }
  }

  /** Every prefilled transaction is at its position. */
  lemma {:induction false} PlacedThere<T>(isNull: T -> bool, msg: Message<T>, n: nat, i: nat)
    requires i < n <= |msg.prefilled| && PrefilledOk(isNull, msg, n)
    ensures 0 <= Position(msg.prefilled, i + 1) < Total(msg)
    ensures Place(isNull, msg, n)[Position(msg.prefilled, i + 1)] == Some(msg.prefilled[i].tx)
  {
    PositionFromZero(msg.prefilled, i + 1);
    assert PrefilledAt(isNull, msg, i);
    if i < n - 1 {
      PlacedThere(isNull, msg, n - 1, i);
      PositionRises(msg.prefilled, i + 1, n);
    }
  }

  lemma {:induction false} PositionRises<T>(prefilled: seq<Prefilled<T>>, m: nat, n: nat)
    requires m < n <= |prefilled|
    ensures Position(prefilled, m) < Position(prefilled, n)
  {
    if m < n - 1 {
      PositionRises(prefilled, m, n - 1);
    }
  }

  // ----- counting

  function Filled<T>(slots: seq<Option<T>>): nat {
    if slots == [] then 0 else Filled(slots[..|slots| - 1]) + if slots[|slots| - 1].Some? then 1 else 0
  }

  /** The positions that hold nothing, in order. */
  function Unfilled<T>(slots: seq<Option<T>>): (r: seq<nat>)
    ensures forall i :: 0 <= i < |r| ==> r[i] < |slots|
  {
    if slots == [] then []
    else
      var rest := Unfilled(slots[..|slots| - 1]);
      if slots[|slots| - 1].None? then rest + [|slots| - 1] else rest
  }

  lemma {:induction false} CountsAdd<T>(slots: seq<Option<T>>)
    ensures |Unfilled(slots)| + Filled(slots) == |slots|
  {
    if slots != [] {
      CountsAdd(slots[..|slots| - 1]);
    }
  }

  lemma {:induction false} FilledUpdate<T>(slots: seq<Option<T>>, p: nat, v: Option<T>)
    requires p < |slots|
    ensures Filled(slots[p := v]) ==
      Filled(slots) + (if v.Some? then 1 else 0) - (if slots[p].Some? then 1 else 0)
  {
    var n := |slots| - 1;
    var next := slots[p := v];
    if p == n {
      assert next[..n] == slots[..n];
    } else {
      FilledUpdate(slots[..n], p, v);
      assert next[..n] == slots[..n][p := v];
    }
  }

  lemma {:induction false} FilledNone<T>(slots: seq<Option<T>>)
    requires forall i :: 0 <= i < |slots| ==> slots[i].None?
    ensures Filled(slots) == 0
  {
    if slots != [] {
      FilledNone(slots[..|slots| - 1]);
    }
  }

  /** Every prefilled transaction has a position of its own. */
  lemma {:induction false} FilledPlace<T>(isNull: T -> bool, msg: Message<T>, n: nat)
    requires n <= |msg.prefilled| && PrefilledOk(isNull, msg, n)
    ensures Filled(Place(isNull, msg, n)) == n
  {
    if n == 0 {
      FilledNone<T>(Place(isNull, msg, 0));
    } else {
      FilledPlace(isNull, msg, n - 1);
      PositionFromZero(msg.prefilled, n);
      assert PrefilledAt(isNull, msg, n - 1);
      var p := Position(msg.prefilled, n);
      PlaceEnds(isNull, msg, n - 1, p);
      FilledUpdate(Place(isNull, msg, n - 1), p, Some(msg.prefilled[n - 1].tx));
    }
  }

  /** So there are as many free positions as short ids. */
  lemma FreePositions<T>(isNull: T -> bool, msg: Message<T>)
    requires PrefilledOk(isNull, msg, |msg.prefilled|)
    ensures |Unfilled(Place(isNull, msg, |msg.prefilled|))| == |msg.shortIds|
  {
    FilledPlace(isNull, msg, |msg.prefilled|);
    CountsAdd(Place(isNull, msg, |msg.prefilled|));
  }

  lemma {:induction false} UnfilledPrefix<T>(slots: seq<Option<T>>, n: nat)
    requires n <= |slots|
    ensures Unfilled(slots[..n]) <= Unfilled(slots)
    decreases |slots|
  {
    if n < |slots| {
      var rest := slots[..|slots| - 1];
      UnfilledPrefix(rest, n);
      assert rest[..n] == slots[..n];
    } else {
      assert slots[..n] == slots;
    }
  }

  lemma UnfilledNext<T>(slots: seq<Option<T>>, p: nat)
    requires p < |slots|
    ensures Unfilled(slots[..p + 1]) == Unfilled(slots[..p]) + if slots[p].None? then [p] else []
  {
    assert slots[..p + 1][..p] == slots[..p];
  }

  lemma {:induction false} UnfilledIs<T>(slots: seq<Option<T>>, p: nat)
    ensures p in Unfilled(slots) <==> p < |slots| && slots[p].None?
  {
    if slots != [] {
      var n := |slots| - 1;
      UnfilledIs(slots[..n], p);
    }
  }

  lemma {:induction false} PlacedBelow<T>(isNull: T -> bool, msg: Message<T>, n: nat, p: nat)
    requires n <= |msg.prefilled| && PrefilledOk(isNull, msg, n) && p < Total(msg)
    requires Place(isNull, msg, n)[p].Some?
    ensures p < LIMIT16
  {
    if n > 0 {
      assert PrefilledAt(isNull, msg, n - 1);
      if p != Position(msg.prefilled, n) {
        PlacedBelow(isNull, msg, n - 1, p);
      }
    }
  }

  /** Positions that stay what they are in 16 bits. */
  ghost predicate Fit16(positions: seq<nat>) {
    forall i :: 0 <= i < |positions| ==> positions[i] % LIMIT16 == positions[i]
  }

  /** Positions are kept in 16 bits: that loses nothing exactly when the block has at
      most 65536 transactions. */
  lemma PositionsFitIff<T>(isNull: T -> bool, msg: Message<T>)
    requires PrefilledOk(isNull, msg, |msg.prefilled|)
    ensures Fit16(Unfilled(Place(isNull, msg, |msg.prefilled|))) <==> Total(msg) <= LIMIT16
  {
    var slots := Place(isNull, msg, |msg.prefilled|);
    var free := Unfilled(slots);
    if Total(msg) > LIMIT16 {
      LastIsFree(isNull, msg);
      var i :| 0 <= i < |free| && free[i] == Total(msg) - 1;
      assert free[i] % LIMIT16 != free[i];
    } else {
      forall i | 0 <= i < |free|
        ensures free[i] % LIMIT16 == free[i]
      {
        assert free[i] < |slots|;
      }
    }
  }

  /** A message with 65537 short ids: the last position wraps to the first. */
  lemma PositionsWrap()
    ensures var msg: Message<nat> := Message(false, seq(65537, i => i), []);
      var free := Unfilled(Place(_ => false, msg, 0));
      && PrefilledOk(_ => false, msg, 0) && Total(msg) == 65537
      && 0 in free && 65536 in free && 65536 % LIMIT16 == 0
      && !Fit16(free)
  {
    var msg: Message<nat> := Message(false, seq(65537, i => i), []);
    PositionsFitIff(_ => false, msg);
    var slots := Place(_ => false, msg, 0);
    UnfilledIs(slots, 0);
    UnfilledIs(slots, 65536);
  }

  lemma LastIsFree<T>(isNull: T -> bool, msg: Message<T>)
    requires PrefilledOk(isNull, msg, |msg.prefilled|) && Total(msg) > LIMIT16
    ensures Total(msg) - 1 in Unfilled(Place(isNull, msg, |msg.prefilled|))
  {
    var slots := Place(isNull, msg, |msg.prefilled|);
    var last := Total(msg) - 1;
    if slots[last].Some? {
      PlacedBelow(isNull, msg, |msg.prefilled|, last);
    }
    UnfilledIs(slots, last);
  }

  // ----- short ids and their positions

  function IdMap(ids: seq<nat>, positions: seq<nat>, n: nat): map<nat, nat>
    requires n <= |ids| && n <= |positions|
  {
    if n == 0 then map[] else IdMap(ids, positions, n - 1)[ids[n - 1] := positions[n - 1]]
  }

  ghost predicate Distinct<T(!new)>(s: seq<T>) {
    forall i, j :: 0 <= i < j < |s| ==> s[i] != s[j]
  }

  lemma {:induction false} IdMapKeys(ids: seq<nat>, positions: seq<nat>, n: nat, id: nat)
    requires n <= |ids| && n <= |positions|
    ensures id in IdMap(ids, positions, n) <==> id in ids[..n]
  {
    if n > 0 {
      IdMapKeys(ids, positions, n - 1, id);
      assert ids[..n] == ids[..n - 1] + [ids[n - 1]];
    }
  }

  /** The map has as many entries as there are ids exactly when no id occurs twice. */
  lemma {:induction false} IdMapSize(ids: seq<nat>, positions: seq<nat>, n: nat)
    requires n <= |ids| && n <= |positions|
    ensures |IdMap(ids, positions, n)| <= n
    ensures |IdMap(ids, positions, n)| == n <==> Distinct(ids[..n])
  {
    if n > 0 {
      var m := IdMap(ids, positions, n - 1);
      IdMapSize(ids, positions, n - 1);
      IdMapKeys(ids, positions, n - 1, ids[n - 1]);
      OneMore(ids, n - 1);
      MapGrows(m, ids[n - 1], positions[n - 1]);
    }
  }

  lemma MapGrows(m: map<nat, nat>, k: nat, v: nat)
    ensures |m[k := v]| == if k in m then |m| else |m| + 1
  {
    if k in m {
      assert m[k := v].Keys == m.Keys;
    } else {
      assert m[k := v].Keys == m.Keys + {k};
    }
  }

  lemma OneMore(ids: seq<nat>, n: nat)
    requires n < |ids|
    ensures Distinct(ids[..n + 1]) <==> Distinct(ids[..n]) && ids[n] !in ids[..n]
  {
    var a, b := ids[..n], ids[..n + 1];
    if Distinct(b) {
      forall i, j | 0 <= i < j < |a|
        ensures a[i] != a[j]
      {
        assert b[i] != b[j];
      }
      forall i | 0 <= i < n
        ensures a[i] != ids[n]
      {
        assert b[i] != b[n];
      }
    }
    if Distinct(a) && ids[n] !in a {
      forall i, j | 0 <= i < j < |b|
        ensures b[i] != b[j]
      {
        if j == n {
          assert a[i] in a;
        } else {
          assert a[i] != a[j];
        }
      }
    }
  }

  /** Then every id leads to its own position. */
  lemma {:induction false} IdMapAt(ids: seq<nat>, positions: seq<nat>, n: nat, i: nat)
    requires i < n <= |ids| && n <= |positions| && Distinct(ids[..n])
    ensures ids[i] in IdMap(ids, positions, n) && IdMap(ids, positions, n)[ids[i]] == positions[i]
  {
    if i < n - 1 {
      OneMore(ids, n - 1);
      IdMapAt(ids, positions, n - 1, i);
      assert ids[..n - 1][i] != ids[n - 1];
    }
  }

  // ----- filling the block

  /** The block from the slots, taking missing transactions in order. */
  function Fill<T>(slots: seq<Option<T>>, missing: seq<T>): Option<seq<T>> {
    if slots == [] then (if missing == [] then Some([]) else None)
    else
      var n := |slots| - 1;
      match slots[n]
      case Some(tx) =>
        (match Fill(slots[..n], missing)
         case Some(vtx) => Some(vtx + [tx])
         case None => None)
      case None =>
        if missing == [] then None
        else
          match Fill(slots[..n], missing[..|missing| - 1])
          case Some(vtx) => Some(vtx + [missing[|missing| - 1]])
          case None => None
  }

  /** Slots that hold nothing but the transactions of a block at their own positions. */
  ghost predicate Faithful<T>(slots: seq<Option<T>>, vtx: seq<T>) {
    |slots| == |vtx| && forall p :: 0 <= p < |slots| ==> slots[p].None? || slots[p] == Some(vtx[p])
  }

  function At<T>(vtx: seq<T>, positions: seq<nat>): (r: seq<T>)
    requires forall i :: 0 <= i < |positions| ==> positions[i] < |vtx|
    ensures |r| == |positions|
  {
    seq(|positions|, i requires 0 <= i < |positions| => vtx[positions[i]])
  }

  /** Faithful slots and the transactions they lack, in order, make up the block. */
  lemma {:induction false} FillRebuilds<T>(slots: seq<Option<T>>, vtx: seq<T>)
    requires Faithful(slots, vtx)
    ensures Fill(slots, At(vtx, Unfilled(slots))) == Some(vtx)
  {
    if slots != [] {
      var n := |slots| - 1;
      var rest := slots[..n];
      FillRebuilds(rest, vtx[..n]);
      assert vtx == vtx[..n] + [vtx[n]];
      assert At(vtx, Unfilled(rest)) == At(vtx[..n], Unfilled(rest));
      if slots[n].None? {
        assert At(vtx, Unfilled(slots))[..|Unfilled(rest)|] == At(vtx, Unfilled(rest));
      }
    }
  }

  /** Filling needs exactly as many transactions as there are free positions. */
  lemma {:induction false} FillNeeds<T>(slots: seq<Option<T>>, missing: seq<T>)
    ensures Fill(slots, missing).Some? <==> |missing| == |Unfilled(slots)|
  {
    if slots != [] {
      var n := |slots| - 1;
      if slots[n].Some? {
        FillNeeds(slots[..n], missing);
      } else if missing != [] {
        FillNeeds(slots[..n], missing[..|missing| - 1]);
      }
    }
  }
}

/** The cuckoo cache as an object: bit-packed collection flags, a table and epoch
    flags that inserts and erases update in place. */
module CuckooCache {
  import opened CuckooModel
  import opened Numbers
  import opened Wrappers
  import opened BitPacking

  class BitFlags {
    const mem: array<bv8>
    ghost var bits: seq<bool>

    ghost predicate Valid()
      reads this, mem
    {
      Packed(mem[..], bits)
    }

    /** All flags start out set. */
    constructor (size: nat)
      ensures Valid() && fresh(mem) && bits == seq(size, _ => true)
    {
      mem := new bv8[(size + 7) / 8](_ => 0xFF);
      bits := seq(size, _ => true);
      new;
      AllBits();
    }

    method Set(s: nat)
      requires Valid() && s < |bits|
      modifies this, mem
      ensures Valid() && bits == old(bits)[s := true]
    {
      var y := OrMask(mem[s / 8], s % 8);
      PackedUpdate(mem[..], bits, s, y, true);
      mem[s / 8] := y;
      bits := bits[s := true];
    }

    method Unset(s: nat)
      requires Valid() && s < |bits|
      modifies this, mem
      ensures Valid() && bits == old(bits)[s := false]
    {
      var y := AndNotMask(mem[s / 8], s % 8);
      PackedUpdate(mem[..], bits, s, y, false);
      mem[s / 8] := y;
      bits := bits[s := false];
    }

    method IsSet(s: nat) returns (b: bool)
      requires Valid() && s < |bits|
      ensures b == bits[s]
    {
      assert PackedAt(mem[..], bits, s);
      b := Bit(mem[s / 8], s % 8);
    }
  }

  class CuckooCache {
    const h: Hash
    const table: array<Element>
    const flags: BitFlags
    const epochFlags: array<bool>
    const epochSize: nat
    const depthLimit: nat
    var counter: nat

    ghost predicate Valid()
      reads flags, flags.mem, table, epochFlags
    {
      && flags.Valid() && depthLimit >= 1
      && 2 <= table.Length < TWO_32 && epochFlags.Length == table.Length && |flags.bits| == table.Length
      && table as object != flags.mem && table as object != epochFlags && epochFlags as object != flags.mem
    }

    ghost function State(): Cache
      reads this, table, flags, epochFlags
    {
      Cache(table[..], flags.bits, epochFlags[..], counter, epochSize, depthLimit)
    }

    ghost function Repr(): set<object> {
      {this, table, flags, flags.mem, epochFlags}
    }

    constructor (h: Hash, newSize: nat, filler: Element, depth: nat)
      requires newSize < TWO_32 && depth >= 1
      ensures Valid() && this.h == h && State() == Setup(newSize, filler, depth)
      ensures fresh(Repr())
    {
      var size := Max(2, newSize);
      this.h := h;
      table := new Element[size](_ => filler);
      flags := new BitFlags(size);
      epochFlags := new bool[size](_ => false);
      epochSize := Max(1, 45 * size % TWO_32 / 100);
      counter := Max(1, 45 * size % TWO_32 / 100);
      depthLimit := depth;
      new;
      assert table[..] == seq(size, _ => filler);
      assert epochFlags[..] == seq(size, _ => false);
    }

    /** The scan over the locations for the element itself. */
    method FindSlot(locs: seq<nat>, e: Element) returns (r: Option<nat>)
      requires forall k :: 0 <= k < |locs| ==> locs[k] < table.Length
      ensures r == Find(table[..], locs, e)
    {
      for k := 0 to |locs|
        invariant Find(table[..], locs, e) == Find(table[..], locs[k..], e)
      {
        if table[locs[k]] == e {
          return Some(locs[k]);
        }
      }
      r := None;
    }

    method FindDead(locs: seq<nat>) returns (r: Option<nat>)
      requires flags.Valid() && forall k :: 0 <= k < |locs| ==> locs[k] < |flags.bits|
      ensures r == FirstDead(flags.bits, locs)
    {
      for k := 0 to |locs|
        invariant FirstDead(flags.bits, locs) == FirstDead(flags.bits, locs[k..])
      {
        var b := flags.IsSet(locs[k]);
        if b {
          return Some(locs[k]);
        }
      }
      r := None;
    }

    method Contains(e: Element, erase: bool) returns (found: bool)
      requires Valid()
      modifies flags, flags.mem
      ensures Valid()
      ensures found <==> Lookup(old(State()), h, e).Some?
      ensures State() == if erase then Erase(old(State()), h, e) else old(State())
    {
      var r := FindSlot(Locations(h, e, table.Length), e);
      found := r.Some?;
      if erase && r.Some? {
        flags.Set(r.value);
      }
    }

    method CountRecent() returns (n: nat)
      requires Valid()
      ensures n == |LiveRecent(State())|
    {
      n := 0;
      ghost var seen: set<nat> := {};
      for i := 0 to table.Length
        invariant seen == set k: nat | k < i && !flags.bits[k] && epochFlags[k]
        invariant n == |seen|
      {
        var b := flags.IsSet(i);
        if epochFlags[i] && !b {
          n := n + 1;
          seen := seen + {i};
        }
      }
      assert seen == LiveRecent(State());
    }

    method Age()
      requires Valid()
      modifies flags, flags.mem, epochFlags
      ensures Valid() && State() == Aged(old(State())).(counter := counter)
    {
      ghost var c := State();
      for i := 0 to table.Length
        invariant Valid() && table[..] == c.table
        invariant forall k :: 0 <= k < i ==> !epochFlags[k] && flags.bits[k] == (c.dead[k] || !c.recent[k])
        invariant forall k :: i <= k < table.Length ==> epochFlags[k] == c.recent[k] && flags.bits[k] == c.dead[k]
      {
        AgeSlot(i);
      }
      assert flags.bits == Aged(c).dead;
      assert epochFlags[..] == Aged(c).recent;
    }

    method AgeSlot(i: nat)
      requires Valid() && i < table.Length
      modifies flags, flags.mem, epochFlags
      ensures Valid() && table[..] == old(table[..])
      ensures epochFlags[..] == old(epochFlags[..])[i := false]
      ensures flags.bits == old(flags.bits)[i := old(flags.bits)[i] || !old(epochFlags[i])]
    {
      if epochFlags[i] {
        epochFlags[i] := false;
      } else {
        flags.Set(i);
      }
    }

    method EpochCheck()
      requires Valid()
      modifies Repr()
      ensures Valid() && State() == CuckooModel.EpochCheck(old(State()))
    {
      if counter != 0 {
        counter := counter - 1;
        return;
      }
      var n := CountRecent();
      if n >= epochSize {
        Age();
        counter := epochSize;
      } else {
        counter := Max(1, Max(epochSize / 16, epochSize - n));
      }
    }

    method NextSlot(locs: seq<nat>, last: int) returns (loc: nat)
      requires |locs| == 8
      ensures loc == NextLocation(locs, last)
    {
      var k := 0;
      while k < 8 && locs[k] != last
        invariant 0 <= k <= 8 && IndexOf(locs, last) == k + IndexOf(locs[k..], last)
      {
        k := k + 1;
      }
      loc := locs[(1 + k) % 8];
    }

    method Put(loc: nat, e: Element, epoch: bool)
      requires Valid() && loc < table.Length
      modifies table, flags, flags.mem, epochFlags
      ensures Valid() && State() == CuckooModel.Put(old(State()), loc, e, epoch)
    {
      table[loc] := e;
      flags.Unset(loc);
      epochFlags[loc] := epoch;
    }

    method Swap(loc: nat, e: Element, epoch: bool) returns (e': Element, epoch': bool)
      requires Valid() && loc < table.Length
      modifies table, epochFlags
      ensures Valid() && e' == old(table[loc]) && epoch' == old(epochFlags[loc])
      ensures var c := old(State());
        State() == c.(table := c.table[loc := e], recent := c.recent[loc := epoch])
    {
      e', epoch' := table[loc], epochFlags[loc];
      table[loc], epochFlags[loc] := e, epoch;
    }

    /** Returns the element that was dropped, if the depth limit was reached. */
    method Insert(e: Element) returns (dropped: Option<Element>)
      requires Valid() && Home(State(), h) && Bounded(State())
      modifies Repr()
      ensures Valid() && Home(State(), h) && Bounded(State())
      ensures (State(), dropped) == CuckooModel.Insert(old(State()), h, e)
    {
      InsertKeeps(State(), h, e);
      EpochCheck();
      var locs := Locations(h, e, table.Length);
      var r := FindSlot(locs, e);
      if r.Some? {
        flags.Unset(r.value);
        epochFlags[r.value] := true;
        return None;
      }
      dropped := DisplaceLoop(e);
    }

    method DisplaceLoop(first: Element) returns (dropped: Option<Element>)
      requires Valid()
      modifies Repr()
      ensures Valid()
      ensures (State(), dropped) == Displace(old(State()), h, first, true, INVALID, depthLimit)
    {
      ghost var goal := Displace(State(), h, first, true, INVALID, depthLimit);
      var e, epoch, last, placed := first, true, INVALID, false;
      var depth := 0;
      while depth < depthLimit
        invariant Valid() && 0 <= depth <= depthLimit
        invariant Displace(State(), h, e, epoch, last, depthLimit - depth) == goal
      {
        ghost var c, e0, epoch0, last0, left := State(), e, epoch, last, depthLimit - depth;
        placed, e, epoch, last := DisplaceOnce(e, epoch, last, left);
        if placed {
          return None;
        }
        depth := depth + 1;
        assert Displace(State(), h, e, epoch, last, left - 1) == Displace(c, h, e0, epoch0, last0, left);
      }
      dropped := Some(e);
    }

    /** One turn of the loop: into a free location, or in the place of another. */
    method DisplaceOnce(e: Element, epoch: bool, last: int, ghost depth: nat)
      returns (placed: bool, e': Element, epoch': bool, last': int)
      requires Valid() && depth > 0
      modifies Repr()
      ensures Valid()
      ensures placed ==> Displace(old(State()), h, e, epoch, last, depth) == (State(), None)
      ensures !placed ==>
        Displace(old(State()), h, e, epoch, last, depth) == Displace(State(), h, e', epoch', last', depth - 1)
    {
      var locs := Locations(h, e, table.Length);
      var r := FindDead(locs);
      placed, e', epoch', last' := r.Some?, e, epoch, last;
      if placed {
        Put(r.value, e, epoch);
      } else {
        last' := NextSlot(locs, last);
        e', epoch' := Swap(last', e, epoch);
      }
    }
  }
}

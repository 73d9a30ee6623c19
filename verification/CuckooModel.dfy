/** The cuckoo cache as a value: a table in which an element may sit at any of its
    eight locations, a discard flag and an epoch flag per slot, and the counter
    that decides when epochs are scanned. */
module CuckooModel {
  import opened Numbers
  import opened Wrappers

  type Element = nat

  /** The eight 32-bit hashes of an element. */
  type Hash = (Element, nat) -> nat

  const TWO_32: int := 0x1_0000_0000
  const INVALID: int := 0xFFFF_FFFF

  /** `dead` are the collection flags and `recent` the epoch flags. */
  datatype Cache = Cache(table: seq<Element>, dead: seq<bool>, recent: seq<bool>, counter: nat, epochSize: nat,
                         depth: nat)

  predicate Shaped(c: Cache) {
    2 <= |c.table| < TWO_32 && |c.dead| == |c.table| && |c.recent| == |c.table| && c.depth >= 1
  }

  // ----- locations

  function Location(h: Hash, e: Element, size: nat, i: nat): nat {
    h(e, i) % TWO_32 * size / TWO_32
  }

  lemma LocationFits(h: Hash, e: Element, size: nat, i: nat)
    requires size > 0
    ensures Location(h, e, size, i) < size
  {
    MulMonotone(h(e, i) % TWO_32, TWO_32 - 1, size);
  }

  function Locations(h: Hash, e: Element, size: nat): (l: seq<nat>)
    requires size > 0
    ensures |l| == 8 && forall k :: 0 <= k < 8 ==> l[k] < size
  {
    assert forall i {:trigger Location(h, e, size, i)} :: 0 <= i < 8 ==> Location(h, e, size, i) < size by {
      forall i | 0 <= i < 8 ensures Location(h, e, size, i) < size {
        LocationFits(h, e, size, i);
      }
    }
    seq(8, i requires 0 <= i < 8 => Location(h, e, size, i))
  }

  /** The locations lie in the table as the hashes lie among the 32-bit numbers. */
  lemma LocationIs(h: Hash, e: Element, size: nat, k: nat)
    requires size > 0 && k < 8
    ensures var l := Locations(h, e, size)[k];
      l * TWO_32 <= h(e, k) % TWO_32 * size < (l + 1) * TWO_32
  {
    var product := h(e, k) % TWO_32 * size;
    assert Locations(h, e, size)[k] == product / TWO_32;
  }

  // ----- looking up

  /** The first of the locations that holds `e`, whether discarded or not. */
  function Find(table: seq<Element>, locs: seq<nat>, e: Element): (r: Option<nat>)
    requires forall k :: 0 <= k < |locs| ==> locs[k] < |table|
    ensures r.Some? ==> r.value in locs && r.value < |table| && table[r.value] == e
    ensures r.None? ==> forall k :: 0 <= k < |locs| ==> table[locs[k]] != e
  {
    if locs == [] then None
    else if table[locs[0]] == e then Some(locs[0])
    else Find(table, locs[1..], e)
  }

  /** The first of the locations that may be overwritten. */
  function FirstDead(dead: seq<bool>, locs: seq<nat>): (r: Option<nat>)
    requires forall k :: 0 <= k < |locs| ==> locs[k] < |dead|
    ensures r.Some? ==> r.value < |dead| && dead[r.value]
  {
    if locs == [] then None
    else if dead[locs[0]] then Some(locs[0])
    else FirstDead(dead, locs[1..])
  }

  lemma {:induction false} FirstDeadAt(dead: seq<bool>, locs: seq<nat>) returns (k: nat)
    requires forall k :: 0 <= k < |locs| ==> locs[k] < |dead|
    ensures match FirstDead(dead, locs)
      case Some(loc) => k < |locs| && locs[k] == loc && forall j :: 0 <= j < k ==> !dead[locs[j]]
      case None => forall j :: 0 <= j < |locs| ==> !dead[locs[j]]
  {
    k := 0;
    if locs != [] && !dead[locs[0]] {
      k := FirstDeadAt(dead, locs[1..]);
      k := k + 1;
      assert forall j :: 0 < j < |locs| ==> locs[j] == locs[1..][j - 1];
    }
  }

  function IndexOf(locs: seq<nat>, x: int): nat {
    if locs == [] || locs[0] == x then 0 else 1 + IndexOf(locs[1..], x)
  }

  function Lookup(c: Cache, h: Hash, e: Element): Option<nat>
    requires Shaped(c)
  {
    Find(c.table, Locations(h, e, |c.table|), e)
  }

  // ----- epochs

  /** Kept elements of the current epoch, and of the one before. */
  function LiveRecent(c: Cache): set<nat>
    requires Shaped(c)
  {
    set i: nat | i < |c.table| && !c.dead[i] && c.recent[i]
  }

  function LiveOld(c: Cache): set<nat>
    requires Shaped(c)
  {
    set i: nat | i < |c.table| && !c.dead[i] && !c.recent[i]
  }

  function Aged(c: Cache): Cache
    requires Shaped(c)
  {
    c.(dead := seq(|c.table|, i requires 0 <= i < |c.table| => c.dead[i] || !c.recent[i]),
       recent := seq(|c.table|, _ => false),
       counter := c.epochSize)
  }

  function EpochCheck(c: Cache): Cache
    requires Shaped(c)
  {
    if c.counter != 0 then c.(counter := c.counter - 1)
    else
      var n := |LiveRecent(c)|;
      if n >= c.epochSize then Aged(c)
      else c.(counter := Max(1, Max(c.epochSize / 16, c.epochSize - n)))
  }

  // ----- inserting

  function Put(c: Cache, loc: nat, e: Element, epoch: bool): Cache
    requires loc < |c.table| && |c.dead| == |c.table| && |c.recent| == |c.table|
  {
    c.(table := c.table[loc := e], dead := c.dead[loc := false], recent := c.recent[loc := epoch])
  }

  /** The next location to evict from: the one after the last one used. When there
      is no last one the search ends at 8, so the choice is location 1. */
  function NextLocation(locs: seq<nat>, last: int): nat
    requires |locs| == 8
  {
    locs[(1 + IndexOf(locs, last)) % 8]
  }

  lemma {:induction false} IndexOfAbsent(locs: seq<nat>, x: int)
    requires x !in locs
    ensures IndexOf(locs, x) == |locs|
  {
    if locs != [] {
      IndexOfAbsent(locs[1..], x);
    }
  }

  /** No location is the invalid one, so the first element displaced is the one at
      the second location, in a table of any size. */
  lemma FirstDisplaced(h: Hash, e: Element, size: nat)
    requires 2 <= size < TWO_32
    ensures NextLocation(Locations(h, e, size), INVALID) == Locations(h, e, size)[1]
  {
    IndexOfAbsent(Locations(h, e, size), INVALID);
  }

  /** After that it is the one after the last one used, in turn. */
  lemma NextDisplaced(locs: seq<nat>, k: nat)
    requires |locs| == 8 && k < 8 && forall j :: 0 <= j < k ==> locs[j] != locs[k]
    ensures NextLocation(locs, locs[k]) == if k == 7 then locs[0] else locs[k + 1]
  {
    IndexOfFirst(locs, k);
  }

  lemma {:induction false} IndexOfFirst(locs: seq<nat>, k: nat)
    requires k < |locs| && forall j :: 0 <= j < k ==> locs[j] != locs[k]
    ensures IndexOf(locs, locs[k]) == k
  {
    if k > 0 {
      assert locs[0] != locs[k];
      IndexOfFirst(locs[1..], k - 1);
    }
  }

  /** A hash for which that is not the first location. */
  lemma FirstDisplacedDiffers()
    ensures var h: Hash := (e, i) => if i == 0 then 0 else 0x8000_0000;
      Locations(h, 5, 2)[0] == 0 && NextLocation(Locations(h, 5, 2), INVALID) == 1
  {
    var h: Hash := (e, i) => if i == 0 then 0 else 0x8000_0000;
    FirstDisplaced(h, 5, 2);
    assert Locations(h, 5, 2)[1] == Location(h, 5, 2, 1) == 1;
  }

  /** The displacement loop. Returns the element in hand when the depth runs out. */
  function Displace(c: Cache, h: Hash, e: Element, epoch: bool, last: int, depth: nat): (Cache, Option<Element>)
    requires Shaped(c)
    decreases depth
  {
    var locs := Locations(h, e, |c.table|);
    if depth == 0 then (c, Some(e)) else
    match FirstDead(c.dead, locs)
    case Some(loc) => (Put(c, loc, e, epoch), None)
    case None =>
      var loc := NextLocation(locs, last);
      Displace(c.(table := c.table[loc := e], recent := c.recent[loc := epoch]), h, c.table[loc], c.recent[loc], loc,
               depth - 1)
  }

  function Insert(c: Cache, h: Hash, e: Element): (Cache, Option<Element>)
    requires Shaped(c)
  {
    var c := EpochCheck(c);
    match Lookup(c, h, e)
    case Some(loc) => (c.(dead := c.dead[loc := false], recent := c.recent[loc := true]), None)
    case None => Displace(c, h, e, true, INVALID, c.depth)
  }

  function Erase(c: Cache, h: Hash, e: Element): Cache
    requires Shaped(c)
  {
    match Lookup(c, h, e)
    case Some(loc) => c.(dead := c.dead[loc := true])
    case None => c
  }

  // ----- what every operation keeps

  /** Every kept element is where looking it up finds it; so none is kept twice. */
  ghost predicate Home(c: Cache, h: Hash) {
    Shaped(c) && forall i {:trigger AtHome(c, h, i)} :: 0 <= i < |c.table| && !c.dead[i] ==> AtHome(c, h, i)
  }

  ghost predicate AtHome(c: Cache, h: Hash, i: nat)
    requires Shaped(c) && i < |c.table|
  {
    Lookup(c, h, c.table[i]) == Some(i)
  }

  function Live(c: Cache): set<Element>
    requires Shaped(c)
  {
    set i: nat | i < |c.table| && !c.dead[i] :: c.table[i]
  }

  lemma {:induction false} FindIs(table: seq<Element>, locs: seq<nat>, e: Element, k: nat)
    requires forall j :: 0 <= j < |locs| ==> locs[j] < |table|
    requires k < |locs| && table[locs[k]] == e
    requires forall j :: 0 <= j < k && locs[j] != locs[k] ==> table[locs[j]] != e
    ensures Find(table, locs, e) == Some(locs[k])
  {
    if k > 0 && locs[0] != locs[k] {
      FindIs(table, locs[1..], e, k - 1);
    }
  }

  lemma {:induction false} FindFrame(table: seq<Element>, locs: seq<nat>, x: Element, loc: nat, e: Element)
    requires forall j :: 0 <= j < |locs| ==> locs[j] < |table|
    requires loc < |table| && e != x && Find(table, locs, x).Some? && Find(table, locs, x).value != loc
    ensures Find(table[loc := e], locs, x) == Find(table, locs, x)
  {
    if table[locs[0]] != x {
      FindFrame(table, locs[1..], x, loc, e);
    }
  }

  lemma NotTwice(c: Cache, h: Hash, i: nat, j: nat)
    requires Home(c, h) && i < |c.table| && j < |c.table| && !c.dead[i] && !c.dead[j] && c.table[i] == c.table[j]
    ensures i == j
  {
    assert AtHome(c, h, i) && AtHome(c, h, j);
  }

  /** Placing an element that is not kept, at a location all of whose predecessors
      are kept, leaves every kept element findable. */
  lemma PutHome(c: Cache, h: Hash, e: Element, epoch: bool, k: nat)
    requires Home(c, h) && e !in Live(c) && k < 8
    requires forall j :: 0 <= j < k ==> !c.dead[Locations(h, e, |c.table|)[j]]
    ensures Home(Put(c, Locations(h, e, |c.table|)[k], e, epoch), h)
  {
    var locs := Locations(h, e, |c.table|);
    var loc := locs[k];
    var d := Put(c, loc, e, epoch);
    forall i | 0 <= i < |d.table| && !d.dead[i] ensures AtHome(d, h, i) {
      if i == loc {
        forall j | 0 <= j < k && locs[j] != loc ensures d.table[locs[j]] != e {
          assert c.table[locs[j]] in Live(c);
        }
        FindIs(d.table, locs, e, k);
      } else {
        assert c.table[i] in Live(c) && AtHome(c, h, i);
        FindFrame(c.table, Locations(h, c.table[i], |c.table|), c.table[i], loc, e);
      }
    }
  }

  lemma PutLive(c: Cache, h: Hash, e: Element, epoch: bool, loc: nat)
    requires Home(c, h) && loc < |c.table| && e !in Live(c)
    ensures Live(Put(c, loc, e, epoch)) == (if c.dead[loc] then Live(c) else Live(c) - {c.table[loc]}) + {e}
    ensures !c.dead[loc] ==> c.table[loc] in Live(c) && c.table[loc] !in Live(Put(c, loc, e, epoch))
  {
    var d := Put(c, loc, e, epoch);
    forall x | x in Live(d) ensures x in (if c.dead[loc] then Live(c) else Live(c) - {c.table[loc]}) + {e} {
      var i: nat :| i < |d.table| && !d.dead[i] && d.table[i] == x;
      if i != loc {
        assert !c.dead[i];
        if !c.dead[loc] && c.table[i] == c.table[loc] {
          NotTwice(c, h, i, loc);
        }
      }
    }
    forall x | x in (if c.dead[loc] then Live(c) else Live(c) - {c.table[loc]}) + {e} ensures x in Live(d) {
      if x == e {
        assert d.table[loc] == e && !d.dead[loc];
      } else {
        var i: nat :| i < |c.table| && !c.dead[i] && c.table[i] == x;
        assert i != loc && d.table[i] == x && !d.dead[i];
      }
    }
  }

  lemma PutCounts(c: Cache, e: Element, epoch: bool, loc: nat)
    requires Shaped(c) && loc < |c.table|
    ensures |LiveRecent(Put(c, loc, e, epoch))| ==
      |LiveRecent(c)| + (if epoch then 1 else 0) - (if !c.dead[loc] && c.recent[loc] then 1 else 0)
    ensures |LiveOld(Put(c, loc, e, epoch))| ==
      |LiveOld(c)| + (if epoch then 0 else 1) - (if !c.dead[loc] && !c.recent[loc] then 1 else 0)
  {
    PutSets(c, e, epoch, loc);
    Replaced(LiveRecent(c), LiveRecent(Put(c, loc, e, epoch)), loc, epoch);
    Replaced(LiveOld(c), LiveOld(Put(c, loc, e, epoch)), loc, !epoch);
  }

  lemma PutSets(c: Cache, e: Element, epoch: bool, loc: nat)
    requires Shaped(c) && loc < |c.table|
    ensures LiveRecent(Put(c, loc, e, epoch)) == if epoch then LiveRecent(c) + {loc} else LiveRecent(c) - {loc}
    ensures LiveOld(Put(c, loc, e, epoch)) == if epoch then LiveOld(c) - {loc} else LiveOld(c) + {loc}
  {
  }

  lemma Replaced(a: set<nat>, b: set<nat>, x: nat, put: bool)
    requires b == if put then a + {x} else a - {x}
    ensures |b| == |a| + (if put then 1 else 0) - (if x in a then 1 else 0)
  {
    assert a == (if x in a then a - {x} + {x} else a);
  }

  /** What the displacement loop does: nothing kept is lost but the one element it
      returns, everything kept stays findable, and the epochs gain at most one. */
  ghost predicate Displaced(c: Cache, h: Hash, e: Element, epoch: bool, d: Cache, dropped: Option<Element>)
    requires Shaped(c)
  {
    && Home(d, h) && d.counter == c.counter && d.epochSize == c.epochSize
    && (dropped.None? ==> Live(d) == Live(c) + {e})
    && (dropped.Some? ==> dropped.value in Live(c) + {e} && Live(d) == Live(c) + {e} - {dropped.value})
    && |LiveRecent(d)| <= |LiveRecent(c)| + (if epoch then 1 else 0)
    && |LiveOld(d)| <= |LiveOld(c)| + (if epoch then 0 else 1)
  }

  lemma PutDisplaces(c: Cache, h: Hash, e: Element, epoch: bool, k: nat)
    requires Home(c, h) && e !in Live(c) && k < 8
    requires forall j :: 0 <= j < k ==> !c.dead[Locations(h, e, |c.table|)[j]]
    ensures var loc := Locations(h, e, |c.table|)[k];
      var d := Put(c, loc, e, epoch);
      && (c.dead[loc] ==> Displaced(c, h, e, epoch, d, None))
      && (!c.dead[loc] ==> Displaced(c, h, e, epoch, d, Some(c.table[loc])) && Swapped(c, d, loc, epoch))
  {
    var loc := Locations(h, e, |c.table|)[k];
    PutHome(c, h, e, epoch, k);
    PutLive(c, h, e, epoch, loc);
    PutCounts(c, e, epoch, loc);
    assert Live(c) + {e} - {c.table[loc]} == Live(c) - {c.table[loc]} + ({e} - {c.table[loc]});
  }

  ghost predicate Swapped(c: Cache, d: Cache, loc: nat, epoch: bool)
    requires Shaped(c) && Shaped(d) && loc < |c.table|
  {
    && c.table[loc] in Live(c) && c.table[loc] !in Live(d)
    && |LiveRecent(d)| == |LiveRecent(c)| + (if epoch then 1 else 0) - (if c.recent[loc] then 1 else 0)
    && |LiveOld(d)| == |LiveOld(c)| + (if epoch then 0 else 1) - (if c.recent[loc] then 0 else 1)
  }

  lemma DisplacedAgain(c: Cache, h: Hash, e: Element, epoch: bool, loc: nat, d: Cache, f: Cache,
                       dropped: Option<Element>)
    requires Shaped(c) && loc < |c.table|
    requires Displaced(c, h, e, epoch, d, Some(c.table[loc])) && Swapped(c, d, loc, epoch)
    requires Displaced(d, h, c.table[loc], c.recent[loc], f, dropped)
    ensures Displaced(c, h, e, epoch, f, dropped)
  {
    assert Live(d) + {c.table[loc]} == Live(c) + {e};
  }

  lemma DisplacedNothing(c: Cache, h: Hash, e: Element, epoch: bool)
    requires Home(c, h) && e !in Live(c)
    ensures Displaced(c, h, e, epoch, c, Some(e))
  {
    assert Live(c) + {e} - {e} == Live(c);
  }

  /** One eviction: the element in hand takes the slot of a kept one. */
  lemma SwapDisplaces(c: Cache, h: Hash, e: Element, epoch: bool, k: nat)
    requires Home(c, h) && e !in Live(c) && k < 8
    requires forall j :: 0 <= j < 8 ==> !c.dead[Locations(h, e, |c.table|)[j]]
    ensures var loc := Locations(h, e, |c.table|)[k];
      var d := c.(table := c.table[loc := e], recent := c.recent[loc := epoch]);
      Displaced(c, h, e, epoch, d, Some(c.table[loc])) && Swapped(c, d, loc, epoch)
  {
    var loc := Locations(h, e, |c.table|)[k];
    PutDisplaces(c, h, e, epoch, k);
    assert Put(c, loc, e, epoch) == c.(table := c.table[loc := e], recent := c.recent[loc := epoch]);
  }

  lemma FillDisplaces(c: Cache, h: Hash, e: Element, epoch: bool)
    requires Home(c, h) && e !in Live(c) && FirstDead(c.dead, Locations(h, e, |c.table|)).Some?
    ensures Displaced(c, h, e, epoch, Put(c, FirstDead(c.dead, Locations(h, e, |c.table|)).value, e, epoch), None)
  {
    var locs := Locations(h, e, |c.table|);
    var loc := FirstDead(c.dead, locs).value;
    var k := FirstDeadAt(c.dead, locs);
    PutDisplaces(c, h, e, epoch, k);
  }

  lemma {:induction false} DisplaceKeeps(c: Cache, h: Hash, e: Element, epoch: bool, last: int, depth: nat)
    requires Home(c, h) && e !in Live(c)
    ensures Displaced(c, h, e, epoch, Displace(c, h, e, epoch, last, depth).0, Displace(c, h, e, epoch, last, depth).1)
    decreases depth
  {
    if depth == 0 {
      DisplacedNothing(c, h, e, epoch);
    } else if FirstDead(c.dead, Locations(h, e, |c.table|)).Some? {
      FillDisplaces(c, h, e, epoch);
    } else {
      SwapThenDisplace(c, h, e, epoch, last, depth);
    }
  }

  lemma {:induction false} SwapThenDisplace(c: Cache, h: Hash, e: Element, epoch: bool, last: int, depth: nat)
    requires Home(c, h) && e !in Live(c) && depth > 0 && FirstDead(c.dead, Locations(h, e, |c.table|)).None?
    ensures Displaced(c, h, e, epoch, Displace(c, h, e, epoch, last, depth).0, Displace(c, h, e, epoch, last, depth).1)
    decreases depth, 0
  {
    var locs := Locations(h, e, |c.table|);
    var loc := NextLocation(locs, last);
    var _ := FirstDeadAt(c.dead, locs);
    SwapDisplaces(c, h, e, epoch, (1 + IndexOf(locs, last)) % 8);
    var d := c.(table := c.table[loc := e], recent := c.recent[loc := epoch]);
    DisplaceKeeps(d, h, c.table[loc], c.recent[loc], loc, depth - 1);
    var (f, dropped) := Displace(d, h, c.table[loc], c.recent[loc], loc, depth - 1);
    DisplacedAgain(c, h, e, epoch, loc, d, f, dropped);
  }

  // ----- epochs of elements

  /** The kept elements of the current epoch. */
  function Recents(c: Cache): set<Element>
    requires Shaped(c)
  {
    set i: nat | i < |c.table| && !c.dead[i] && c.recent[i] :: c.table[i]
  }

  function Only(e: Element, yes: bool): set<Element> {
    if yes then {e} else {}
  }

  lemma PutRecents(c: Cache, h: Hash, e: Element, epoch: bool, loc: nat)
    requires Home(c, h) && loc < |c.table| && (e !in Live(c) || (c.table[loc] == e && epoch))
    ensures Recents(Put(c, loc, e, epoch)) == Recents(c) - Only(c.table[loc], !c.dead[loc]) + Only(e, epoch)
    ensures !c.dead[loc] ==> (c.table[loc] in Recents(c) <==> c.recent[loc])
  {
    var d := Put(c, loc, e, epoch);
    forall i: nat | i < |c.table| && !c.dead[i] && !c.dead[loc] && c.table[i] == c.table[loc] ensures i == loc {
      NotTwice(c, h, i, loc);
    }
    forall x | x in Recents(d) ensures x in Recents(c) - Only(c.table[loc], !c.dead[loc]) + Only(e, epoch) {
      var i: nat :| i < |d.table| && !d.dead[i] && d.recent[i] && d.table[i] == x;
      assert i != loc ==> !c.dead[i] && c.recent[i] && c.table[i] == x;
    }
    forall x | x in Recents(c) - Only(c.table[loc], !c.dead[loc]) ensures x in Recents(d) || (x == e && epoch) {
      var i: nat :| i < |c.table| && !c.dead[i] && c.recent[i] && c.table[i] == x;
      assert i != loc ==> !d.dead[i] && d.recent[i] && d.table[i] == x;
    }
    assert epoch ==> !d.dead[loc] && d.recent[loc] && d.table[loc] == e;
  }

  /** The displacement loop changes no element's epoch; the new one gets the epoch given. */
  lemma {:induction false} DisplaceRecents(c: Cache, h: Hash, e: Element, epoch: bool, last: int, depth: nat)
    requires Home(c, h) && e !in Live(c)
    ensures var (d, dropped) := Displace(c, h, e, epoch, last, depth);
      && Shaped(d)
      && Recents(d) == Recents(c) + Only(e, epoch) - (if dropped.Some? then {dropped.value} else {})
    decreases depth
  {
    DisplaceKeeps(c, h, e, epoch, last, depth);
    assert Recents(c) <= Live(c);
    if depth > 0 {
      var locs := Locations(h, e, |c.table|);
      if FirstDead(c.dead, locs).Some? {
        PutRecents(c, h, e, epoch, FirstDead(c.dead, locs).value);
      } else {
        SwapRecents(c, h, e, epoch, last, depth);
      }
    }
  }

  lemma {:induction false} SwapRecents(c: Cache, h: Hash, e: Element, epoch: bool, last: int, depth: nat)
    requires Home(c, h) && e !in Live(c) && depth > 0 && FirstDead(c.dead, Locations(h, e, |c.table|)).None?
    ensures var (d, dropped) := Displace(c, h, e, epoch, last, depth);
      && Shaped(d)
      && Recents(d) == Recents(c) + Only(e, epoch) - (if dropped.Some? then {dropped.value} else {})
    decreases depth, 0
  {
    var locs := Locations(h, e, |c.table|);
    var loc := NextLocation(locs, last);
    SwappedRecents(c, h, e, epoch, (1 + IndexOf(locs, last)) % 8);
    var d := c.(table := c.table[loc := e], recent := c.recent[loc := epoch]);
    DisplaceRecents(d, h, c.table[loc], c.recent[loc], loc, depth - 1);
  }

  lemma SwappedRecents(c: Cache, h: Hash, e: Element, epoch: bool, k: nat)
    requires Home(c, h) && e !in Live(c) && k < 8 && FirstDead(c.dead, Locations(h, e, |c.table|)).None?
    ensures var loc := Locations(h, e, |c.table|)[k];
      var d := c.(table := c.table[loc := e], recent := c.recent[loc := epoch]);
      && Home(d, h) && c.table[loc] !in Live(d)
      && Recents(d) + Only(c.table[loc], c.recent[loc]) == Recents(c) + Only(e, epoch)
  {
    var loc := Locations(h, e, |c.table|)[k];
    TakenIsNoneDead(c, Locations(h, e, |c.table|));
    SwapDisplaces(c, h, e, epoch, k);
    PutRecents(c, h, e, epoch, loc);
    var d := c.(table := c.table[loc := e], recent := c.recent[loc := epoch]);
    assert d == Put(c, loc, e, epoch);
    Regained(Recents(c), Recents(d), c.table[loc], c.recent[loc], e, epoch);
  }

  lemma Regained(before: set<Element>, after: set<Element>, x: Element, had: bool, e: Element, epoch: bool)
    requires x != e && after == before - {x} + Only(e, epoch) && (x in before <==> had)
    ensures after + Only(x, had) == before + Only(e, epoch)
  {
  }

  /** Every turn of the displacement loop found the eight locations of the element in
      hand taken by kept ones. */
  ghost predicate Crowded(c: Cache, h: Hash, e: Element, epoch: bool, last: int, depth: nat)
    requires Shaped(c)
    decreases depth
  {
    depth > 0 ==>
      var locs := Locations(h, e, |c.table|);
      var loc := NextLocation(locs, last);
      && AllTaken(c, locs)
      && Crowded(c.(table := c.table[loc := e], recent := c.recent[loc := epoch]), h, c.table[loc], c.recent[loc],
                 loc, depth - 1)
  }

  ghost predicate AllTaken(c: Cache, locs: seq<nat>)
    requires Shaped(c) && |locs| == 8 && forall k :: 0 <= k < 8 ==> locs[k] < |c.table|
  {
    forall k :: 0 <= k < 8 ==> !c.dead[locs[k]]
  }

  lemma TakenIsNoneDead(c: Cache, locs: seq<nat>)
    requires Shaped(c) && |locs| == 8 && forall k :: 0 <= k < 8 ==> locs[k] < |c.table|
    ensures AllTaken(c, locs) <==> FirstDead(c.dead, locs).None?
  {
    var k := FirstDeadAt(c.dead, locs);
  }

  /** Only then is an element dropped. */
  lemma {:induction false} DroppedIffCrowded(c: Cache, h: Hash, e: Element, epoch: bool, last: int, depth: nat)
    requires Shaped(c)
    ensures Displace(c, h, e, epoch, last, depth).1.Some? <==> Crowded(c, h, e, epoch, last, depth)
    decreases depth
  {
    if depth > 0 {
      var locs := Locations(h, e, |c.table|);
      TakenIsNoneDead(c, locs);
      if AllTaken(c, locs) {
        var loc := NextLocation(locs, last);
        DroppedIffCrowded(c.(table := c.table[loc := e], recent := c.recent[loc := epoch]), h, c.table[loc],
                          c.recent[loc], loc, depth - 1);
      }
    }
  }

  // ----- epochs and load

  /** How far the current epoch may outgrow its size before it is noticed. */
  function EpochBound(c: Cache): int {
    c.epochSize + Max(1, c.epochSize / 16)
  }

  ghost predicate Bounded(c: Cache)
    requires Shaped(c)
  {
    |LiveRecent(c)| + c.counter <= EpochBound(c) && |LiveOld(c)| <= EpochBound(c)
  }

  /** When the scan is due and finds the current epoch full. */
  predicate Ages(c: Cache)
    requires Shaped(c)
  {
    c.counter == 0 && |LiveRecent(c)| >= c.epochSize
  }

  /** What the scan before an insert keeps: the current epoch if it is full, and
      everything otherwise. */
  function Survivors(c: Cache): set<Element>
    requires Shaped(c)
  {
    if Ages(c) then set i | i in LiveRecent(c) :: c.table[i] else Live(c)
  }

  /** The scan before an insert: recent elements survive it, older ones go exactly
      when it ages, and afterwards there is room for one more element in the
      current epoch. */
  lemma EpochCheckKeeps(c: Cache, h: Hash)
    requires Home(c, h) && Bounded(c)
    ensures var d := EpochCheck(c);
      && Home(d, h) && d.table == c.table && d.epochSize == c.epochSize && d.depth == c.depth
      && Live(d) == Survivors(c)
      && |LiveRecent(d)| + 1 + d.counter <= EpochBound(d) && |LiveOld(d)| <= EpochBound(d)
      && (Ages(c) ==> d.counter == c.epochSize)
      && (c.counter == 0 && !Ages(c) ==>
            d.counter >= Max(1, c.epochSize / 16) && |LiveRecent(d)| + d.counter >= c.epochSize)
      && (c.counter > 0 ==> d.counter == c.counter - 1)
  {
    var d := EpochCheck(c);
    forall i | 0 <= i < |d.table| && !d.dead[i] ensures AtHome(d, h, i) {
      assert AtHome(c, h, i);
    }
    if c.counter == 0 && |LiveRecent(c)| >= c.epochSize {
      assert LiveRecent(d) == {};
      assert LiveOld(d) == LiveRecent(c);
      forall i: nat | i < |c.table| ensures !d.dead[i] <==> i in LiveRecent(c) {
      }
      assert Live(d) == Survivors(c);
    } else {
      assert Live(d) == Live(c);
    }
  }

  lemma Revive(c: Cache, h: Hash, e: Element)
    requires Home(c, h) && Lookup(c, h, e).Some?
    ensures var loc := Lookup(c, h, e).value;
      var d := c.(dead := c.dead[loc := false], recent := c.recent[loc := true]);
      && Home(d, h) && Live(d) == Live(c) + {e}
      && |LiveRecent(d)| <= |LiveRecent(c)| + 1 && |LiveOld(d)| <= |LiveOld(c)|
  {
    var loc := Lookup(c, h, e).value;
    var d := c.(dead := c.dead[loc := false], recent := c.recent[loc := true]);
    assert d == Put(c, loc, e, true);
    PutCounts(c, e, true, loc);
    forall i | 0 <= i < |d.table| && !d.dead[i] ensures AtHome(d, h, i) {
      assert i != loc ==> AtHome(c, h, i);
    }
    assert e in Live(d) by {
      assert !d.dead[loc] && d.table[loc] == e;
    }
    forall x | x in Live(c) ensures x in Live(d) {
      var i: nat :| i < |c.table| && !c.dead[i] && c.table[i] == x;
      assert !d.dead[i] && d.table[i] == x;
    }
  }

  /** Inserting: of what survives the epoch scan at most one element is lost, and
      that is the one returned; everything kept is findable. */
  lemma InsertKeeps(c: Cache, h: Hash, e: Element)
    requires Home(c, h) && Bounded(c)
    ensures var (d, dropped) := Insert(c, h, e);
      && Home(d, h) && Bounded(d) && d.epochSize == c.epochSize
      && (dropped.None? ==> Live(d) == Survivors(c) + {e})
      && (dropped.Some? ==> dropped.value in Survivors(c) + {e} && Live(d) == Survivors(c) + {e} - {dropped.value})
      && (dropped.Some? <==> Lookup(c, h, e).None? && Crowded(EpochCheck(c), h, e, true, INVALID, c.depth))
  {
    EpochCheckKeeps(c, h);
    var d := EpochCheck(c);
    DroppedIffCrowded(d, h, e, true, INVALID, d.depth);
    match Lookup(d, h, e)
    case Some(_) => Revive(d, h, e);
    case None =>
      NotKept(d, h, e);
      DisplaceKeeps(d, h, e, true, INVALID, d.depth);
  }

  lemma NotKept(c: Cache, h: Hash, e: Element)
    requires Home(c, h) && Lookup(c, h, e).None?
    ensures e !in Live(c)
  {
    forall i: nat | i < |c.table| && !c.dead[i] ensures c.table[i] != e {
      assert AtHome(c, h, i);
    }
  }

  /** The element inserted belongs to the current epoch, and apart from ageing no other
      element changes its epoch. */
  lemma InsertRecents(c: Cache, h: Hash, e: Element)
    requires Home(c, h) && Bounded(c)
    ensures var (d, dropped) := Insert(c, h, e);
      && Shaped(d)
      && Recents(d) == (if Ages(c) then {} else Recents(c)) + {e} - (if dropped.Some? then {dropped.value} else {})
  {
    EpochCheckKeeps(c, h);
    var d := EpochCheck(c);
    assert Recents(d) == if Ages(c) then {} else Recents(c);
    match Lookup(d, h, e)
    case Some(loc) => PutRecents(d, h, e, true, loc);
    case None =>
      NotKept(d, h, e);
      DisplaceRecents(d, h, e, true, INVALID, d.depth);
  }

  /** With a location free before the insert, the element is stored and nothing is lost
      but to the scan. */
  lemma InsertStores(c: Cache, h: Hash, e: Element, k: nat)
    requires Home(c, h) && Bounded(c) && k < 8 && c.dead[Locations(h, e, |c.table|)[k]]
    ensures var (d, dropped) := Insert(c, h, e);
      dropped.None? && Home(d, h) && Live(d) == Survivors(c) + {e} && Lookup(d, h, e).Some?
  {
    InsertKeeps(c, h, e);
    assert EpochCheck(c).dead[Locations(h, e, |c.table|)[k]];
    assert !AllTaken(EpochCheck(c), Locations(h, e, |c.table|));
    var d := Insert(c, h, e).0;
    var i: nat :| i < |d.table| && !d.dead[i] && d.table[i] == e;
    assert AtHome(d, h, i);
  }

  lemma EraseKeeps(c: Cache, h: Hash, e: Element)
    requires Home(c, h) && Bounded(c)
    ensures var d := Erase(c, h, e);
      && Home(d, h) && Bounded(d) && d.epochSize == c.epochSize
      && Live(d) == Live(c) - {e}
      && Lookup(d, h, e) == Lookup(c, h, e)
  {
    var d := Erase(c, h, e);
    forall i: nat | i < |c.table| && !c.dead[i] ensures c.table[i] == e ==> Lookup(c, h, e) == Some(i) {
      assert AtHome(c, h, i);
    }
    forall i | 0 <= i < |d.table| && !d.dead[i] ensures AtHome(d, h, i) {
      assert AtHome(c, h, i);
    }
    if Lookup(c, h, e).Some? {
      var loc := Lookup(c, h, e).value;
      assert LiveRecent(d) <= LiveRecent(c) && LiveOld(d) <= LiveOld(c);
      SubsetSize(LiveRecent(d), LiveRecent(c));
      SubsetSize(LiveOld(d), LiveOld(c));
    }
    forall x | x in Live(c) ensures x == e || x in Live(d) {
      var i: nat :| i < |c.table| && !c.dead[i] && c.table[i] == x;
      assert x != e ==> !d.dead[i] && d.table[i] == x;
    }
    forall x | x in Live(d) ensures x in Live(c) && x != e {
      var i: nat :| i < |d.table| && !d.dead[i] && d.table[i] == x;
      assert !c.dead[i];
    }
  }

  lemma SubsetSize(a: set<nat>, b: set<nat>)
    requires a <= b
    ensures |a| <= |b|
  {
    assert b == a + (b - a);
  }

  // ----- runs

  /** A freshly set up cache: every slot may be discarded. The multiplication wraps
      as in 32-bit arithmetic; `depth` stands for the rounded logarithm. */
  function Setup(newSize: nat, filler: Element, depth: nat): Cache {
    var size := Max(2, newSize);
    var epochSize := Max(1, 45 * size % TWO_32 / 100);
    Cache(seq(size, _ => filler), seq(size, _ => true), seq(size, _ => false), epochSize, epochSize, depth)
  }

  datatype Op = OpInsert(e: Element) | OpErase(e: Element)

  function Step(c: Cache, h: Hash, op: Op): Cache
    requires Shaped(c)
  {
    match op
    case OpInsert(e) => Insert(c, h, e).0
    case OpErase(e) => Erase(c, h, e)
  }

  lemma StepKeeps(c: Cache, h: Hash, op: Op)
    requires Home(c, h) && Bounded(c)
    ensures Home(Step(c, h, op), h) && Bounded(Step(c, h, op)) && Step(c, h, op).epochSize == c.epochSize
  {
    match op
    case OpInsert(e) => InsertKeeps(c, h, e);
    case OpErase(e) => EraseKeeps(c, h, e);
  }

  ghost function Run(c: Cache, h: Hash, ops: seq<Op>): Cache
    requires Home(c, h) && Bounded(c)
    decreases |ops|
  {
    if ops == [] then c else
    StepKeeps(c, h, ops[0]);
    Run(Step(c, h, ops[0]), h, ops[1..])
  }

  lemma {:induction false} RunKeeps(c: Cache, h: Hash, ops: seq<Op>)
    requires Home(c, h) && Bounded(c)
    ensures Home(Run(c, h, ops), h) && Bounded(Run(c, h, ops)) && Run(c, h, ops).epochSize == c.epochSize
    decreases |ops|
  {
    if ops != [] {
      StepKeeps(c, h, ops[0]);
      RunKeeps(Step(c, h, ops[0]), h, ops[1..]);
    }
  }

  lemma SetupKeeps(newSize: nat, filler: Element, depth: nat, h: Hash)
    requires newSize < TWO_32 && depth >= 1
    ensures Home(Setup(newSize, filler, depth), h) && Bounded(Setup(newSize, filler, depth))
    ensures var c := Setup(newSize, filler, depth);
      && |c.table| == Max(2, newSize) && (forall i :: 0 <= i < |c.dead| ==> c.dead[i]) && c.counter == c.epochSize >= 1
      && (45 * |c.table| < TWO_32 ==> 100 * c.epochSize <= Max(100, 45 * |c.table|) < 100 * c.epochSize + 100)
  {
    var c := Setup(newSize, filler, depth);
    assert LiveRecent(c) == {} && LiveOld(c) == {};
  }

  /** The load over any run: the current epoch never outgrows its size by more than
      a sixteenth, all kept elements together never exceed twice that bound, each
      is found by looking it up, and none is kept twice. */
  lemma LoadBound(newSize: nat, filler: Element, depth: nat, h: Hash, ops: seq<Op>)
    requires newSize < TWO_32 && depth >= 1
    ensures Home(Setup(newSize, filler, depth), h) && Bounded(Setup(newSize, filler, depth))
    ensures var c := Run(Setup(newSize, filler, depth), h, ops);
      var bound := c.epochSize + Max(1, c.epochSize / 16);
      && Shaped(c) && c.epochSize == Setup(newSize, filler, depth).epochSize
      && |LiveRecent(c)| <= bound
      && |LiveRecent(c) + LiveOld(c)| <= 2 * bound
      && (forall i: nat :: i < |c.table| && !c.dead[i] ==> Lookup(c, h, c.table[i]) == Some(i))
      && (forall i: nat, j: nat ::
            i < |c.table| && j < |c.table| && !c.dead[i] && !c.dead[j] && c.table[i] == c.table[j] ==> i == j)
  {
    SetupKeeps(newSize, filler, depth, h);
    RunKeeps(Setup(newSize, filler, depth), h, ops);
    var c := Run(Setup(newSize, filler, depth), h, ops);
    assert |LiveRecent(c) + LiveOld(c)| <= |LiveRecent(c)| + |LiveOld(c)|;
    forall i: nat | i < |c.table| && !c.dead[i] ensures Lookup(c, h, c.table[i]) == Some(i) {
      assert AtHome(c, h, i);
    }
  }
}

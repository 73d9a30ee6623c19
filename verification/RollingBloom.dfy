/** The rolling Bloom filter on pairs of 64-bit words. */
module RollingBloom {
  import opened Numbers
  import opened BitWords
  import opened BloomModel

  // ----- cells in words

  /** The two bits of a cell as a number. */
  function Stored(w1: nat, w2: nat, b: nat): nat {
    (if Bit(w1, b) then 1 else 0) + (if Bit(w2, b) then 2 else 0)
  }

  predicate InRange(d: seq<nat>, c: Cell) {
    2 * c.pair + 1 < |d| && c.bit < 64
  }

  function StoredAt(d: seq<nat>, c: Cell): nat
    requires InRange(d, c)
  {
    Stored(d[2 * c.pair], d[2 * c.pair + 1], c.bit)
  }

  /** All bits of a word, or none. */
  function Spread(odd: bool): nat {
    if odd then WORD - 1 else 0
  }

  lemma SpreadBit(odd: bool, b: nat)
    requires b < 64
    ensures Bit(Spread(odd), b) <==> odd
  {
    var n := 64;
    Power64(n);
    FullBit(n, b);
    ZeroBit(b);
  }

  /** The bits where a pair of words differs from a generation. */
  function Differs(p1: nat, p2: nat, g: nat): nat {
    Or(Xor(p1, Spread(g % 2 == 1)), Xor(p2, Spread(g / 2 == 1)))
  }

  lemma DiffersBit(p1: nat, p2: nat, g: nat, b: nat)
    requires 1 <= g <= 3 && b < 64
    ensures Bit(Differs(p1, p2, g), b) <==> Stored(p1, p2, b) != g
  {
    SpreadBit(g % 2 == 1, b);
    SpreadBit(g / 2 == 1, b);
    XorBit(p1, Spread(g % 2 == 1), b);
    XorBit(p2, Spread(g / 2 == 1), b);
    OrOfBits(Xor(p1, Spread(g % 2 == 1)), Xor(p2, Spread(g / 2 == 1)), b);
  }

  /** The mask leaves every cell but those of the generation, and clears those. */
  lemma WipeBit(p1: nat, p2: nat, g: nat, b: nat)
    requires 1 <= g <= 3 && b < 64
    ensures var mask := Differs(p1, p2, g);
      Stored(And(p1, mask), And(p2, mask), b) == if Stored(p1, p2, b) == g then 0 else Stored(p1, p2, b)
  {
    DiffersBit(p1, p2, g, b);
    AndBit(p1, Differs(p1, p2, g), b);
    AndBit(p2, Differs(p1, p2, g), b);
  }

  lemma BelowWord(k: nat)
    requires k < 64
    ensures Pow2(k) < WORD
  {
    var n := 64;
    Power64(n);
    Pow2Monotone(k + 1, n);
  }

  /** One bit of a word set to a value. */
  function WithBit(x: nat, k: nat, v: nat): nat
    requires k < 64
  {
    BelowWord(k);
    Or(And(x, WORD - 1 - Pow2(k)), v * Pow2(k))
  }

  lemma WithBitIs(x: nat, k: nat, v: nat, b: nat)
    requires k < 64 && b < 64 && v <= 1
    ensures Bit(WithBit(x, k, v), b) <==> if b == k then v == 1 else Bit(x, b)
  {
    var n := 64;
    Power64(n);
    BelowWord(k);
    ComplementBit(n, Pow2(k), b);
    PowBit(k, b);
    ZeroBit(b);
    AndBit(x, WORD - 1 - Pow2(k), b);
    OrOfBits(And(x, WORD - 1 - Pow2(k)), v * Pow2(k), b);
    assert v * Pow2(k) == if v == 1 then Pow2(k) else 0;
  }

  // ----- what the two loops do to all cells

  ghost predicate Wiped(was: seq<nat>, now: seq<nat>, g: nat, pairs: nat) {
    && |was| == |now|
    && forall c: Cell {:trigger StoredAt(now, c)} :: InRange(now, c) ==>
         StoredAt(now, c) == if c.pair < pairs && StoredAt(was, c) == g then 0 else StoredAt(was, c)
  }

  lemma WipePair(was: seq<nat>, now: seq<nat>, next: seq<nat>, g: nat, pair: nat)
    requires Wiped(was, now, g, pair) && 1 <= g <= 3 && 2 * pair + 1 < |now|
    requires now[2 * pair] == was[2 * pair] && now[2 * pair + 1] == was[2 * pair + 1]
    requires var mask := Differs(now[2 * pair], now[2 * pair + 1], g);
      next == now[2 * pair := And(now[2 * pair], mask)][2 * pair + 1 := And(now[2 * pair + 1], mask)]
    ensures Wiped(was, next, g, pair + 1)
  {
    forall c: Cell | InRange(next, c)
      ensures StoredAt(next, c) == if c.pair < pair + 1 && StoredAt(was, c) == g then 0 else StoredAt(was, c)
    {
      if c.pair == pair {
        WipeBit(now[2 * pair], now[2 * pair + 1], g, c.bit);
      } else {
        assert StoredAt(next, c) == StoredAt(now, c);
      }
    }
  }

  /** Some cells hold the generation, the others what they held. */
  ghost predicate Painted(was: seq<nat>, now: seq<nat>, cells: set<Cell>, g: nat) {
    && |was| == |now|
    && forall c: Cell {:trigger StoredAt(now, c)} :: InRange(now, c) ==>
         StoredAt(now, c) == if c in cells then g else StoredAt(was, c)
  }

  lemma PaintCell(was: seq<nat>, now: seq<nat>, next: seq<nat>, cells: set<Cell>, g: nat, c: Cell)
    requires Painted(was, now, cells, g) && 1 <= g <= 3 && InRange(now, c)
    requires next == now[2 * c.pair := WithBit(now[2 * c.pair], c.bit, g % 2)]
                        [2 * c.pair + 1 := WithBit(now[2 * c.pair + 1], c.bit, g / 2)]
    ensures Painted(was, next, cells + {c}, g)
  {
    forall d: Cell | InRange(next, d)
      ensures StoredAt(next, d) == if d in cells + {c} then g else StoredAt(was, d)
    {
      if d.pair == c.pair {
        WithBitIs(now[2 * c.pair], c.bit, g % 2, d.bit);
        WithBitIs(now[2 * c.pair + 1], c.bit, g / 2, d.bit);
      }
      assert d != c ==> StoredAt(next, d) == StoredAt(now, d);
    }
  }

  // ----- the filter

  /** The cells of a key for the first so many hash functions. */
  function KeyCells<K>(hash: (nat, nat, K) -> nat, tweak: nat, funcs: nat, words: nat, key: K): set<Cell>
    requires words > 0
  {
    set n | 0 <= n < funcs :: CellOf(hash(n, tweak, key), words)
  }

  /** Two hashes lead to the same bit of the same two words. */
  predicate SamePlace(h1: nat, h2: nat, words: nat)
    requires words > 0
  {
    h1 % 64 == h2 % 64 && h1 / 64 % words / 2 == h2 / 64 % words / 2
  }

  ghost predicate SeenBy<K(!new)>(hash: (nat, nat, K) -> nat, tweak: nat, funcs: nat, words: nat, key: K, h: nat)
    requires words > 0
  {
    exists m: nat :: m < funcs && SamePlace(h, hash(m, tweak, key), words)
  }

  /** Some key of the last three generations has some hash with the place of `h`. */
  ghost predicate SeenLately<K(!new)>(hash: (nat, nat, K) -> nat, tweak: nat, funcs: nat, words: nat,
                                      gens: seq<seq<K>>, h: nat)
    requires words > 0
  {
    exists g, i ::
      0 <= g < |gens| <= g + 3 && 0 <= i < |gens[g]| && SeenBy(hash, tweak, funcs, words, gens[g][i], h)
  }

  lemma SeenIsCell<K(!new)>(hash: (nat, nat, K) -> nat, tweak: nat, funcs: nat, words: nat, key: K, h: nat)
    requires words > 0
    ensures CellOf(h, words) in KeyCells(hash, tweak, funcs, words, key) <==> SeenBy(hash, tweak, funcs, words, key, h)
  {
    if SeenBy(hash, tweak, funcs, words, key, h) {
      var m: nat :| m < funcs && SamePlace(h, hash(m, tweak, key), words);
      assert CellOf(h, words) == CellOf(hash(m, tweak, key), words);
    }
  }

  lemma MarkedIsSeen<K(!new)>(hash: (nat, nat, K) -> nat, tweak: nat, funcs: nat, words: nat, cells: K -> set<Cell>,
                              gens: seq<seq<K>>, h: nat)
    requires words > 0 && forall k :: cells(k) == KeyCells(hash, tweak, funcs, words, k)
    ensures Mark(cells, gens, CellOf(h, words)) != 0 <==> SeenLately(hash, tweak, funcs, words, gens, h)
  {
    var c := CellOf(h, words);
    MarkedIff(cells, gens, c);
    forall g, i | 0 <= g < |gens| && 0 <= i < |gens[g]|
      ensures c in cells(gens[g][i]) <==> SeenBy(hash, tweak, funcs, words, gens[g][i], h)
    {
      SeenIsCell(hash, tweak, funcs, words, gens[g][i], h);
    }
    if g :| 0 <= g < |gens| <= g + 3 && Touches(cells, gens[g], c) {
      var i :| 0 <= i < |gens[g]| && c in cells(gens[g][i]);
      assert SeenBy(hash, tweak, funcs, words, gens[g][i], h);
    }
    if g, i :| 0 <= g < |gens| <= g + 3 && 0 <= i < |gens[g]| && SeenBy(hash, tweak, funcs, words, gens[g][i], h) {
      assert c in cells(gens[g][i]);
      assert Touches(cells, gens[g], c);
    }
  }

  ghost predicate MarkedBy<K(!new)>(d: seq<nat>, cells: K -> set<Cell>, gens: seq<seq<K>>) {
    forall c: Cell {:trigger StoredAt(d, c)} :: InRange(d, c) ==> StoredAt(d, c) == Mark(cells, gens, c)
  }

  lemma WipedIsMarked<K(!new)>(was: seq<nat>, now: seq<nat>, cells: K -> set<Cell>, gens: seq<seq<K>>)
    requires gens != [] && MarkedBy(was, cells, gens)
    requires Wiped(was, now, Number(|gens| + 1), |now| / 2)
    ensures MarkedBy(now, cells, gens + [[]])
  {
    forall c: Cell | InRange(now, c)
      ensures StoredAt(now, c) == Mark(cells, gens + [[]], c)
    {
      assert InRange(was, c) && StoredAt(was, c) == Mark(cells, gens, c);
      MarkRotates(cells, gens, c);
    }
  }

  lemma PaintedIsMarked<K(!new)>(was: seq<nat>, now: seq<nat>, cells: K -> set<Cell>, gens: seq<seq<K>>, key: K)
    requires gens != [] && MarkedBy(was, cells, gens) && Painted(was, now, cells(key), Number(|gens|))
    ensures MarkedBy(now, cells, Grown(gens, key))
  {
    forall c: Cell | InRange(now, c)
      ensures StoredAt(now, c) == Mark(cells, Grown(gens, key), c)
    {
      assert InRange(was, c) && StoredAt(was, c) == Mark(cells, gens, c);
      MarkGrows(cells, gens, key, c);
    }
  }

  /** Generations are numbered one, two, three, one and so on. */
  function NextGeneration(g: nat): nat {
    if g + 1 == 4 then 1 else g + 1
  }

  lemma NumberNext(n: nat)
    requires n > 0
    ensures NextGeneration(Number(n)) == Number(n + 1)
  {
  }

  lemma FullMore<K(!new)>(gens: seq<seq<K>>, size: nat)
    requires gens != [] && Full(gens, size) && |gens[|gens| - 1]| == size
    ensures Full(gens + [[]], size)
  {
    forall i | 0 <= i < |gens|
      ensures |(gens + [[]])[i]| == size
    {
      assert (gens + [[]])[i] == gens[i];
    }
  }

  class RollingBloomFilter<K(!new)> {
    const nElements: nat
    const perGeneration: nat
    const hashFuncs: nat
    const hash: (nat, nat, K) -> nat
    const data: array<nat>
    var tweak: nat
    var entries: nat
    var generation: nat
    /** The keys since the last reset, one list for each generation. */
    ghost var gens: seq<seq<K>>

    ghost function Cells(): K -> set<Cell>
      requires data.Length > 0
      reads this
    {
      var t := tweak;
      (key: K) => KeyCells(hash, t, hashFuncs, data.Length, key)
    }

    ghost predicate Shape()
      reads this
    {
      && data.Length > 0 && data.Length % 2 == 0 && perGeneration == (nElements + 1) / 2
      && gens != [] && generation == Number(|gens|) && entries == |gens[|gens| - 1]| && Full(gens, perGeneration)
    }

    /** Every cell holds exactly what the history says. */
    ghost predicate Marked()
      requires data.Length > 0
      reads this, data
    {
      MarkedBy(data[..], Cells(), gens)
    }

    ghost predicate Valid()
      reads this, data
    {
      Shape() && Marked()
    }

    constructor (nElements: nat, hashFuncs: nat, pairs: nat, hash: (nat, nat, K) -> nat, tweak: nat)
      requires pairs > 0
      ensures Valid() && fresh(data) && this.nElements == nElements && this.hash == hash && gens == [[]]
      ensures this.tweak == tweak && this.hashFuncs == hashFuncs && data.Length == 2 * pairs
    {
      this.nElements, this.hashFuncs, this.hash, this.tweak := nElements, hashFuncs, hash, tweak;
      perGeneration := (nElements + 1) / 2;
      data := new nat[2 * pairs](_ => 0);
      entries, generation, gens := 0, 1, [[]];
      new;
      EmptyMarks();
    }

    lemma EmptyMarks()
      requires Shape() && gens == [[]] && forall i :: 0 <= i < data.Length ==> data[i] == 0
      ensures Marked()
    {
      forall c: Cell | InRange(data[..], c)
        ensures StoredAt(data[..], c) == Mark(Cells(), gens, c)
      {
        ZeroBit(c.bit);
        assert !Touches(Cells(), [], c);
        assert gens[..0] == [];
      }
    }

    method Reset(newTweak: nat)
      requires Valid()
      modifies this, data
      ensures Valid() && gens == [[]] && tweak == newTweak
    {
      tweak := newTweak;
      entries, generation, gens := 0, 1, [[]];
      var i := 0;
      while i < data.Length
        invariant 0 <= i <= data.Length && forall j :: 0 <= j < i ==> data[j] == 0
        invariant gens == [[]] && entries == 0 && generation == 1 && tweak == newTweak
      {
        data[i] := 0;
        i := i + 1;
      }
      EmptyMarks();
    }

    method SetPair(pair: nat, w1: nat, w2: nat)
      requires 2 * pair + 1 < data.Length
      modifies data
      ensures data[..] == old(data[..])[2 * pair := w1][2 * pair + 1 := w2]
    {
      data[2 * pair] := w1;
      data[2 * pair + 1] := w2;
      assert data[..] == old(data[..])[2 * pair := w1][2 * pair + 1 := w2];
    }

    /** All cells of a generation are erased, and no others. */
    method Wipe(g: nat)
      requires data.Length % 2 == 0 && 1 <= g <= 3
      modifies data
      ensures Wiped(old(data[..]), data[..], g, data.Length / 2)
    {
      ghost var was := data[..];
      var p := 0;
      while 2 * p < data.Length
        invariant 0 <= 2 * p <= data.Length && Wiped(was, data[..], g, p)
        invariant forall j :: 2 * p <= j < data.Length ==> data[j] == was[j]
      {
        var p1, p2 := data[2 * p], data[2 * p + 1];
        var mask := Differs(p1, p2, g);
        ghost var before := data[..];
        SetPair(p, And(p1, mask), And(p2, mask));
        WipePair(was, before, data[..], g, p);
        p := p + 1;
      }
    }

    /** A full generation gives way to the next, whose number is erased everywhere. */
    method Rotate()
      requires Valid() && entries == perGeneration
      modifies this, data
      ensures Valid() && gens == old(gens) + [[]] && tweak == old(tweak)
    {
      ghost var was, before, cells := data[..], gens, Cells();
      entries := 0;
      generation := NextGeneration(generation);
      NumberNext(|before|);
      FullMore(before, perGeneration);
      Wipe(generation);
      WipedIsMarked(was, data[..], cells, before);
      gens := before + [[]];
    }

    /** The generation goes into every cell of the key. */
    method Paint(key: K)
      requires Shape()
      modifies data
      ensures Painted(old(data[..]), data[..], Cells()(key), generation)
    {
      ghost var was := data[..];
      var n := 0;
      assert KeyCells(hash, tweak, 0, data.Length, key) == {};
      while n < hashFuncs
        invariant 0 <= n <= hashFuncs
        invariant Painted(was, data[..], KeyCells(hash, tweak, n, data.Length, key), generation)
      {
        var h := hash(n, tweak, key);
        var bit, pos := h % 64, (h / 64) % data.Length;
        ghost var before := data[..];
        SetPair(pos / 2, WithBit(data[2 * (pos / 2)], bit, generation % 2),
                WithBit(data[2 * (pos / 2) + 1], bit, generation / 2));
        PaintCell(was, before, data[..], KeyCells(hash, tweak, n, data.Length, key), generation, Cell(pos / 2, bit));
        OneCellMore(key, n);
        n := n + 1;
      }
    }

    lemma OneCellMore(key: K, n: nat)
      requires data.Length > 0
      ensures KeyCells(hash, tweak, n + 1, data.Length, key)
           == KeyCells(hash, tweak, n, data.Length, key) + {CellOf(hash(n, tweak, key), data.Length)}
    {
    }

    method Insert(key: K)
      requires Valid()
      modifies this, data
      ensures Valid() && tweak == old(tweak) && Flat(gens) == old(Flat(gens)) + [key]
      ensures gens == Grown(if old(entries) == perGeneration then old(gens) + [[]] else old(gens), key)
    {
      FlatGrown(gens, key);
      if entries == perGeneration {
        Rotate();
      }
      FlatGrown(gens, key);
      Enter(key);
    }

    /** A key joins the current generation. */
    method Enter(key: K)
      requires Valid()
      modifies this, data
      ensures Valid() && tweak == old(tweak) && gens == Grown(old(gens), key)
    {
      ghost var was, before := data[..], gens;
      entries := entries + 1;
      gens := Grown(gens, key);
      Paint(key);
      PaintedIsMarked(was, data[..], Cells(), before, key);
    }

    /** Whether one of the two bits that a hash selects is set. */
    method Holds(h: nat) returns (seen: bool)
      requires Valid()
      ensures seen <==> SeenLately(hash, tweak, hashFuncs, data.Length, gens, h)
    {
      var bit, pos := h % 64, (h / 64) % data.Length;
      ghost var c := Cell(pos / 2, bit);
      MarkedIsSeen(hash, tweak, hashFuncs, data.Length, Cells(), gens, h);
      OrOfBits(data[2 * (pos / 2)], data[2 * (pos / 2) + 1], bit);
      assert StoredAt(data[..], c) == Mark(Cells(), gens, c);
      seen := Bit(Or(data[2 * (pos / 2)], data[2 * (pos / 2) + 1]), bit);
    }

    /** A key is reported exactly when every hash of it leads to a place to which some hash of
        some key of the last three generations leads; so each of the last `nElements` keys is,
        and every key of the last three generations. */
    method Contains(key: K) returns (r: bool)
      requires Valid()
      ensures r <==> forall n: nat :: n < hashFuncs ==>
        SeenLately(hash, tweak, hashFuncs, data.Length, gens, hash(n, tweak, key))
      ensures Recent(gens, nElements, key) ==> r
      ensures Recent(gens, 2 * perGeneration + entries, key) ==> r
    {
      r := true;
      var n := 0;
      while n < hashFuncs
        invariant 0 <= n <= hashFuncs
        invariant forall j: nat :: j < n ==>
          SeenLately(hash, tweak, hashFuncs, data.Length, gens, hash(j, tweak, key))
        invariant r
      {
        var seen := Holds(hash(n, tweak, key));
        if !seen {
          RecentIsSeen(key, nElements, n);
          RecentIsSeen(key, 2 * perGeneration + entries, n);
          return false;
        }
        n := n + 1;
      }
    }

    lemma RecentIsSeen(key: K, recent: nat, n: nat)
      requires Shape() && recent <= 2 * perGeneration + entries && n < hashFuncs
      ensures Recent(gens, recent, key) ==>
        SeenLately(hash, tweak, hashFuncs, data.Length, gens, hash(n, tweak, key))
    {
      if Recent(gens, recent, key) {
        var g := RecentIn(gens, perGeneration, recent, key, 2);
        var i :| 0 <= i < |gens[g]| && gens[g][i] == key;
        assert SamePlace(hash(n, tweak, key), hash(n, tweak, key), data.Length);
        assert SeenBy(hash, tweak, hashFuncs, data.Length, gens[g][i], hash(n, tweak, key));
      }
    }
  }
}

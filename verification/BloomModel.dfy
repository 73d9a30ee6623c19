/** The rolling Bloom filter as a history: keys in generations of equal size, and for
    every cell the generation that wrote it last. */
module BloomModel {
  /** A position: a bit of a pair of words. */
  datatype Cell = Cell(pair: nat, bit: nat)

  /** The cell a 32-bit hash selects among so many words. */
  function CellOf(h: nat, words: nat): Cell
    requires words > 0
  {
    Cell(((h / 64) % words) / 2, h % 64)
  }

  // ----- generations

  ghost predicate Touches<K(!new)>(cells: K -> set<Cell>, keys: seq<K>, c: Cell) {
    exists i :: 0 <= i < |keys| && c in cells(keys[i])
  }

  /** The last generation with a key that uses the cell, or -1. */
  ghost function LastTouch<K(!new)>(cells: K -> set<Cell>, gens: seq<seq<K>>, c: Cell): (e: int)
    ensures -1 <= e < |gens|
  {
    if gens == [] then -1
    else if Touches(cells, gens[|gens| - 1], c) then |gens| - 1
    else LastTouch(cells, gens[..|gens| - 1], c)
  }

  /** The number stored for a cell: that of its last generation, unless three have begun since. */
  ghost function Mark<K(!new)>(cells: K -> set<Cell>, gens: seq<seq<K>>, c: Cell): nat {
    var e := LastTouch(cells, gens, c);
    if e == -1 || e + 3 < |gens| then 0 else e % 3 + 1
  }

  function Number(gens: nat): nat
    requires gens > 0
  {
    (gens - 1) % 3 + 1
  }

  /** Beginning a generation erases exactly the marks that have its number. */
  lemma MarkRotates<K(!new)>(cells: K -> set<Cell>, gens: seq<seq<K>>, c: Cell)
    requires gens != []
    ensures var m := Mark(cells, gens, c);
      Mark(cells, gens + [[]], c) == if m == Number(|gens| + 1) then 0 else m
  {
    var next := gens + [[]];
    assert next[..|next| - 1] == gens;
    assert !Touches(cells, [], c);
    assert LastTouch(cells, next, c) == LastTouch(cells, gens, c);
  }

  /** A generation with one more key. */
  function Grown<K>(gens: seq<seq<K>>, key: K): seq<seq<K>>
    requires gens != []
  {
    gens[..|gens| - 1] + [gens[|gens| - 1] + [key]]
  }

  /** A key writes the number of the generation into its cells and no others. */
  lemma MarkGrows<K(!new)>(cells: K -> set<Cell>, gens: seq<seq<K>>, key: K, c: Cell)
    requires gens != []
    ensures Mark(cells, Grown(gens, key), c) == if c in cells(key) then Number(|gens|) else Mark(cells, gens, c)
  {
    var next, n := Grown(gens, key), |gens| - 1;
    assert next[..n] == gens[..n] && next[n] == gens[n] + [key];
    TouchesMore(cells, gens[n], key, c);
  }

  lemma TouchesMore<K(!new)>(cells: K -> set<Cell>, keys: seq<K>, key: K, c: Cell)
    ensures Touches(cells, keys + [key], c) <==> Touches(cells, keys, c) || c in cells(key)
  {
    var more := keys + [key];
    if Touches(cells, keys, c) {
      var i :| 0 <= i < |keys| && c in cells(keys[i]);
      assert c in cells(more[i]);
    }
    if c in cells(key) {
      assert c in cells(more[|keys|]);
    }
  }

  lemma {:induction false} TouchIsLate<K(!new)>(cells: K -> set<Cell>, gens: seq<seq<K>>, g: nat, key: K, c: Cell)
    requires g < |gens| && key in gens[g] && c in cells(key)
    ensures LastTouch(cells, gens, c) >= g
  {
    var n := |gens| - 1;
    if g == n {
      var i :| 0 <= i < |gens[g]| && gens[g][i] == key;
      assert c in cells(gens[g][i]);
    } else {
      TouchIsLate(cells, gens[..n], g, key, c);
    }
  }

  lemma {:induction false} LastTouches<K(!new)>(cells: K -> set<Cell>, gens: seq<seq<K>>, c: Cell)
    ensures var e := LastTouch(cells, gens, c);
      e >= 0 ==> Touches(cells, gens[e], c)
  {
    if gens != [] && !Touches(cells, gens[|gens| - 1], c) {
      LastTouches(cells, gens[..|gens| - 1], c);
    }
  }

  /** A cell is marked exactly when a key of the last three generations uses it. */
  lemma MarkedIff<K(!new)>(cells: K -> set<Cell>, gens: seq<seq<K>>, c: Cell)
    ensures Mark(cells, gens, c) != 0 <==> exists g :: 0 <= g < |gens| <= g + 3 && Touches(cells, gens[g], c)
  {
    LastTouches(cells, gens, c);
    if g :| 0 <= g < |gens| <= g + 3 && Touches(cells, gens[g], c) {
      var i :| 0 <= i < |gens[g]| && c in cells(gens[g][i]);
      TouchIsLate(cells, gens, g, gens[g][i], c);
    }
  }

  // ----- the order of insertion

  function Flat<K>(gens: seq<seq<K>>): seq<K> {
    if gens == [] then [] else Flat(gens[..|gens| - 1]) + gens[|gens| - 1]
  }

  /** The lists, put together, are the keys in the order they came. */
  lemma FlatGrown<K>(gens: seq<seq<K>>, key: K)
    requires gens != []
    ensures Flat(Grown(gens, key)) == Flat(gens) + [key] && Flat(gens + [[]]) == Flat(gens)
  {
    var next, n := Grown(gens, key), |gens| - 1;
    assert next[..n] == gens[..n] && (gens + [[]])[..|gens|] == gens;
    assert next[n] == gens[n] + [key];
  }

  /** All generations but the last are full. */
  ghost predicate Full<K(!new)>(gens: seq<seq<K>>, size: nat) {
    forall i :: 0 <= i < |gens| - 1 ==> |gens[i]| == size
  }

  /** A key is among the last so many inserted. */
  ghost predicate Recent<K>(gens: seq<seq<K>>, n: nat, key: K) {
    var all := Flat(gens);
    key in if n <= |all| then all[|all| - n..] else all
  }

  /** A recent key that is not in the last generation is recent before it. */
  lemma RecentBefore<K(!new)>(gens: seq<seq<K>>, n: nat, key: K)
    requires gens != [] && Recent(gens, n, key) && key !in gens[|gens| - 1]
    ensures n > |gens[|gens| - 1]| && |gens| > 1
    ensures Recent(gens[..|gens| - 1], n - |gens[|gens| - 1]|, key)
  {
    var last := gens[|gens| - 1];
    var rest := Flat(gens[..|gens| - 1]);
    assert Flat(gens) == rest + last;
    if n <= |rest + last| {
      Suffix(rest, last, n);
    }
  }

  lemma Suffix<K>(a: seq<K>, b: seq<K>, n: nat)
    requires n <= |a + b|
    ensures (a + b)[|a + b| - n..] == if n <= |b| then b[|b| - n..] else a[|a| - (n - |b|)..] + b
  {
  }

  /** The last full generations and the current one hold the most recent keys. */
  lemma {:induction false} RecentIn<K(!new)>(gens: seq<seq<K>>, size: nat, n: nat, key: K, back: nat) returns (g: nat)
    requires gens != [] && Full(gens, size) && Recent(gens, n, key)
    requires n <= back * size + |gens[|gens| - 1]|
    ensures g < |gens| <= g + back + 1 && key in gens[g]
    decreases back
  {
    var last := |gens| - 1;
    if key in gens[last] {
      return last;
    }
    RecentBefore(gens, n, key);
    assert back > 0;
    assert back * size == (back - 1) * size + size;
    assert gens[..last][last - 1] == gens[last - 1];
    g := RecentIn(gens[..last], size, n - |gens[last]|, key, back - 1);
  }
}

/** Partial Merkle trees: the bits and hashes that describe the part of a tree over
    a list of transaction ids that leads to the matched ones, and their decoding.
    The pair hash is a parameter. */
module MerkleModel {
  import opened Numbers

  type Hash = nat
  type PairHash = (Hash, Hash) -> Hash

  const NULL_HASH: Hash := 0

  // ----- the shape of the tree

  /** Number of nodes at a height: the shift of the source, rounding up. */
  function Width(n: nat, height: nat): nat {
    (n + Pow2(height) - 1) / Pow2(height)
  }

  /** The first leaf below a node. A node exists if it has one. */
  function Low(height: nat, pos: nat): nat {
    if height == 0 then pos else Low(height - 1, 2 * pos)
  }

  lemma {:induction false} LowIsShift(height: nat, pos: nat)
    ensures Low(height, pos) == pos * Pow2(height)
  {
    if height > 0 {
      LowIsShift(height - 1, 2 * pos);
      var p := Pow2(height - 1);
      assert 2 * pos * p == pos * (2 * p);
    }
  }

  lemma {:induction false} LowMonotone(height: nat, a: nat, b: nat)
    requires a < b
    ensures Low(height, a) < Low(height, b)
  {
    if height > 0 {
      LowMonotone(height - 1, 2 * a, 2 * b);
    }
  }

  predicate InTree(n: nat, height: nat, pos: nat) {
    Low(height, pos) < n
  }

  function High(n: nat, height: nat, pos: nat): (hi: nat)
    ensures hi <= n && (InTree(n, height, pos) ==> Low(height, pos) < hi)
  {
    LowMonotone(height, pos, pos + 1);
    if Low(height, pos + 1) < n then Low(height, pos + 1) else n
  }

  lemma WidthIsInTree(n: nat, height: nat, pos: nat)
    ensures pos < Width(n, height) <==> InTree(n, height, pos)
  {
    LowIsShift(height, pos);
    DivBound(n, Pow2(height), pos);
  }

  lemma DivBound(n: nat, p: nat, k: nat)
    requires p > 0
    ensures k < (n + p - 1) / p <==> k * p < n
  {
    var q, r := (n + p - 1) / p, (n + p - 1) % p;
    assert n + p - 1 == q * p + r;
    if k < q {
      MulMonotone(k + 1, q, p);
    } else {
      MulMonotone(q, k, p);
    }
  }

  /** The children of a node share its leaves. */
  lemma Children(n: nat, height: nat, pos: nat)
    requires height > 0
    ensures Low(height - 1, 2 * pos) == Low(height, pos)
    ensures Low(height - 1, 2 * pos + 2) == Low(height, pos + 1)
    ensures Low(height - 1, 2 * pos) < Low(height - 1, 2 * pos + 1) < Low(height - 1, 2 * pos + 2)
  {
    assert 2 * (pos + 1) == 2 * pos + 2;
    LowMonotone(height - 1, 2 * pos, 2 * pos + 1);
    LowMonotone(height - 1, 2 * pos + 1, 2 * pos + 2);
  }

  // ----- hashing

  function CalcHash(f: PairHash, txids: seq<Hash>, height: nat, pos: nat): Hash
    requires InTree(|txids|, height, pos)
    decreases height, 1
  {
    if height == 0 then txids[pos] else f(LeftHash(f, txids, height, pos), RightHash(f, txids, height, pos))
  }

  function LeftHash(f: PairHash, txids: seq<Hash>, height: nat, pos: nat): Hash
    requires height > 0 && InTree(|txids|, height, pos)
    decreases height, 0
  {
    Children(|txids|, height, pos);
    CalcHash(f, txids, height - 1, 2 * pos)
  }

  /** A missing right child is replaced by the left one. */
  function RightHash(f: PairHash, txids: seq<Hash>, height: nat, pos: nat): Hash
    requires height > 0 && InTree(|txids|, height, pos)
    decreases height, 0
  {
    Children(|txids|, height, pos);
    if InTree(|txids|, height - 1, 2 * pos + 1) then CalcHash(f, txids, height - 1, 2 * pos + 1)
    else CalcHash(f, txids, height - 1, 2 * pos)
  }

  ghost predicate CollisionFree(f: PairHash) {
    forall a, b, c, d {:trigger Determines(f, a, b, c, d)} :: Determines(f, a, b, c, d)
  }

  ghost predicate Determines(f: PairHash, a: Hash, b: Hash, c: Hash, d: Hash) {
    f(a, b) == f(c, d) ==> a == c && b == d
  }

  ghost predicate Distinct(txids: seq<Hash>) {
    forall i, j :: 0 <= i < j < |txids| ==> txids[i] != txids[j]
  }

  /** Different nodes of one height have different hashes. */
  lemma {:induction false} NodesDiffer(f: PairHash, txids: seq<Hash>, height: nat, a: nat, b: nat)
    requires CollisionFree(f) && Distinct(txids) && a != b && InTree(|txids|, height, a) && InTree(|txids|, height, b)
    ensures CalcHash(f, txids, height, a) != CalcHash(f, txids, height, b)
    decreases height
  {
    if height > 0 {
      Children(|txids|, height, a);
      Children(|txids|, height, b);
      NodesDiffer(f, txids, height - 1, 2 * a, 2 * b);
      assert Determines(f, LeftHash(f, txids, height, a), RightHash(f, txids, height, a),
                        LeftHash(f, txids, height, b), RightHash(f, txids, height, b));
    }
  }

  // ----- encoding

  ghost predicate AnyMatch(matched: seq<bool>, lo: nat, hi: nat)
    requires hi <= |matched|
  {
    exists p {:trigger IsHit(matched, p)} :: lo <= p < hi && IsHit(matched, p)
  }

  predicate IsHit(matched: seq<bool>, p: nat)
    requires p < |matched|
  {
    matched[p]
  }

  datatype Code = Code(bits: seq<bool>, hashes: seq<Hash>)

  function Join(a: Code, b: Code): Code {
    Code(a.bits + b.bits, a.hashes + b.hashes)
  }

  ghost function Build(f: PairHash, txids: seq<Hash>, matched: seq<bool>, height: nat, pos: nat): Code
    requires |matched| == |txids| && InTree(|txids|, height, pos)
    decreases height, 1
  {
    var parent := AnyMatch(matched, Low(height, pos), High(|txids|, height, pos));
    if height == 0 || !parent then Code([parent], [CalcHash(f, txids, height, pos)])
    else Join(Code([true], []), BuildBelow(f, txids, matched, height, pos))
  }

  /** The codes of both children, or of the only one. */
  ghost function BuildBelow(f: PairHash, txids: seq<Hash>, matched: seq<bool>, height: nat, pos: nat): Code
    requires |matched| == |txids| && InTree(|txids|, height, pos) && height > 0
    decreases height, 0
  {
    Children(|txids|, height, pos);
    var left := Build(f, txids, matched, height - 1, 2 * pos);
    if InTree(|txids|, height - 1, 2 * pos + 1)
    then Join(left, Build(f, txids, matched, height - 1, 2 * pos + 1))
    else left
  }

  // ----- decoding

  datatype Extracted = Extracted(hash: Hash, bitsUsed: nat, hashesUsed: nat, found: seq<(Hash, nat)>, bad: bool)

  function Extract(f: PairHash, n: nat, code: Code, height: nat, pos: nat, bitsUsed: nat, hashesUsed: nat): Extracted
    decreases height, 1
  {
    if bitsUsed >= |code.bits| then Extracted(NULL_HASH, bitsUsed, hashesUsed, [], true) else
    var parent := code.bits[bitsUsed];
    if height > 0 && parent then ExtractBelow(f, n, code, height, pos, bitsUsed + 1, hashesUsed)
    else if hashesUsed >= |code.hashes| then Extracted(NULL_HASH, bitsUsed + 1, hashesUsed, [], true)
    else
      var hash := code.hashes[hashesUsed];
      Extracted(hash, bitsUsed + 1, hashesUsed + 1, if parent then [(hash, pos)] else [], false)
  }

  function ExtractBelow(f: PairHash, n: nat, code: Code, height: nat, pos: nat, bitsUsed: nat,
                        hashesUsed: nat): Extracted
    requires height > 0
    decreases height, 0
  {
    var l := Extract(f, n, code, height - 1, 2 * pos, bitsUsed, hashesUsed);
    if InTree(n, height - 1, 2 * pos + 1) then
      var r := Extract(f, n, code, height - 1, 2 * pos + 1, l.bitsUsed, l.hashesUsed);
      Extracted(f(l.hash, r.hash), r.bitsUsed, r.hashesUsed, l.found + r.found, l.bad || r.bad || r.hash == l.hash)
    else l.(hash := f(l.hash, l.hash))
  }

  // ----- the matched transactions, in order

  function MatchedIn(txids: seq<Hash>, matched: seq<bool>, lo: nat, hi: nat): seq<(Hash, nat)>
    requires lo <= hi <= |txids| == |matched|
    decreases hi - lo
  {
    if lo == hi then []
    else (if matched[lo] then [(txids[lo], lo)] else []) + MatchedIn(txids, matched, lo + 1, hi)
  }

  lemma {:induction false} MatchedSplit(txids: seq<Hash>, matched: seq<bool>, lo: nat, mid: nat, hi: nat)
    requires lo <= mid <= hi <= |txids| == |matched|
    ensures MatchedIn(txids, matched, lo, hi) == MatchedIn(txids, matched, lo, mid) + MatchedIn(txids, matched, mid, hi)
    decreases mid - lo
  {
    if lo < mid {
      MatchedSplit(txids, matched, lo + 1, mid, hi);
    }
  }

  lemma {:induction false} NoneMatched(txids: seq<Hash>, matched: seq<bool>, lo: nat, hi: nat)
    requires lo <= hi <= |txids| == |matched| && !AnyMatch(matched, lo, hi)
    ensures MatchedIn(txids, matched, lo, hi) == []
    decreases hi - lo
  {
    if lo < hi {
      assert !IsHit(matched, lo);
      NoneMatched(txids, matched, lo + 1, hi);
    }
  }

  /** `part` stands in `whole` from position `at` on. */
  ghost predicate Holds<T>(whole: seq<T>, part: seq<T>, at: nat) {
    at + |part| <= |whole| && whole[at..at + |part|] == part
  }

  lemma HoldsSplit<T>(whole: seq<T>, a: seq<T>, b: seq<T>, at: nat)
    requires Holds(whole, a + b, at)
    ensures Holds(whole, a, at) && Holds(whole, b, at + |a|)
  {
    assert whole[at..at + |a + b|][..|a|] == a;
    assert whole[at..at + |a + b|][|a|..] == b;
    assert whole[at..at + |a|] == whole[at..at + |a + b|][..|a|];
    assert whole[at + |a|..at + |a + b|] == whole[at..at + |a + b|][|a|..];
  }

  /** Some node that is decoded has two children with the same hash. */
  ghost predicate Clash(f: PairHash, txids: seq<Hash>, matched: seq<bool>, height: nat, pos: nat)
    requires |matched| == |txids| && InTree(|txids|, height, pos)
    decreases height
  {
    && height > 0
    && AnyMatch(matched, Low(height, pos), High(|txids|, height, pos))
    && (Children(|txids|, height, pos);
        || Clash(f, txids, matched, height - 1, 2 * pos)
        || (InTree(|txids|, height - 1, 2 * pos + 1) &&
            (Clash(f, txids, matched, height - 1, 2 * pos + 1)
             || CalcHash(f, txids, height - 1, 2 * pos + 1) == CalcHash(f, txids, height - 1, 2 * pos))))
  }

  /** What decoding the code of a node yields, wherever it stands in the stream:
      the hash of the node, the matched transactions below it in order, all of its
      bits and hashes consumed, and a failure exactly when siblings clash. */
  ghost predicate Decodes(f: PairHash, txids: seq<Hash>, matched: seq<bool>, code: Code,
                          height: nat, pos: nat, bitsUsed: nat, hashesUsed: nat)
    requires |matched| == |txids| && InTree(|txids|, height, pos)
  {
    var part := Build(f, txids, matched, height, pos);
    Extract(f, |txids|, code, height, pos, bitsUsed, hashesUsed) ==
      Extracted(CalcHash(f, txids, height, pos), bitsUsed + |part.bits|, hashesUsed + |part.hashes|,
                MatchedIn(txids, matched, Low(height, pos), High(|txids|, height, pos)),
                Clash(f, txids, matched, height, pos))
  }

  ghost predicate Stands(f: PairHash, txids: seq<Hash>, matched: seq<bool>, code: Code,
                         height: nat, pos: nat, bitsUsed: nat, hashesUsed: nat)
    requires |matched| == |txids| && InTree(|txids|, height, pos)
  {
    var part := Build(f, txids, matched, height, pos);
    Holds(code.bits, part.bits, bitsUsed) && Holds(code.hashes, part.hashes, hashesUsed)
  }

  /** The matches below a node that is not descended into. */
  lemma StopMatched(txids: seq<Hash>, matched: seq<bool>, height: nat, pos: nat, lo: nat, hi: nat)
    requires |matched| == |txids| && InTree(|txids|, height, pos)
    requires lo == Low(height, pos) && hi == High(|txids|, height, pos)
    requires height == 0 || !AnyMatch(matched, lo, hi)
    ensures lo <= hi && (AnyMatch(matched, lo, hi) ==> pos < |txids|)
    ensures MatchedIn(txids, matched, lo, hi) == if AnyMatch(matched, lo, hi) then [(txids[pos], pos)] else []
  {
    if AnyMatch(matched, lo, hi) {
      LeafRange(|txids|, pos);
      OneMatched(txids, matched, pos, pos + 1);
    } else {
      NoneMatched(txids, matched, lo, hi);
    }
  }

  lemma StopCode(f: PairHash, txids: seq<Hash>, matched: seq<bool>, code: Code,
                 height: nat, pos: nat, bitsUsed: nat, hashesUsed: nat)
    requires |matched| == |txids| && InTree(|txids|, height, pos)
      && Stands(f, txids, matched, code, height, pos, bitsUsed, hashesUsed)
    requires height == 0 || !AnyMatch(matched, Low(height, pos), High(|txids|, height, pos))
    ensures var part, parent := Build(f, txids, matched, height, pos),
                                AnyMatch(matched, Low(height, pos), High(|txids|, height, pos));
      && |part.bits| == 1 && |part.hashes| == 1
      && bitsUsed < |code.bits| && code.bits[bitsUsed] == parent
      && hashesUsed < |code.hashes| && code.hashes[hashesUsed] == CalcHash(f, txids, height, pos)
  {
    assert code.bits[bitsUsed] == code.bits[bitsUsed..bitsUsed + 1][0];
    assert code.hashes[hashesUsed] == code.hashes[hashesUsed..hashesUsed + 1][0];
  }

  lemma DecodeStop(f: PairHash, txids: seq<Hash>, matched: seq<bool>, code: Code,
                   height: nat, pos: nat, bitsUsed: nat, hashesUsed: nat)
    requires |matched| == |txids| && InTree(|txids|, height, pos)
      && Stands(f, txids, matched, code, height, pos, bitsUsed, hashesUsed)
    requires height == 0 || !AnyMatch(matched, Low(height, pos), High(|txids|, height, pos))
    ensures Decodes(f, txids, matched, code, height, pos, bitsUsed, hashesUsed)
  {
    StopCode(f, txids, matched, code, height, pos, bitsUsed, hashesUsed);
    StopMatched(txids, matched, height, pos, Low(height, pos), High(|txids|, height, pos));
  }

  lemma OneMatched(txids: seq<Hash>, matched: seq<bool>, pos: nat, end: nat)
    requires |matched| == |txids| && pos < |txids| && end == pos + 1 && AnyMatch(matched, pos, end)
    ensures matched[pos] && MatchedIn(txids, matched, pos, end) == [(txids[pos], pos)]
  {
    OneIn(txids, matched, pos, end);
  }

  lemma LeafRange(n: nat, pos: nat)
    requires pos < n
    ensures Low(0, pos) == pos && High(n, 0, pos) == pos + 1
  {
  }

  lemma OneIn(txids: seq<Hash>, matched: seq<bool>, pos: nat, end: nat)
    requires |matched| == |txids| && pos < |txids| && end == pos + 1
    ensures MatchedIn(txids, matched, pos, end) == if matched[pos] then [(txids[pos], pos)] else []
  {
    assert MatchedIn(txids, matched, end, end) == [];
  }

  /** The code of a node above a match is a bit and the codes of its children. */
  lemma BuildBoth(f: PairHash, txids: seq<Hash>, matched: seq<bool>, height: nat, pos: nat)
    requires |matched| == |txids| && InTree(|txids|, height, pos)
    requires height > 0 && AnyMatch(matched, Low(height, pos), High(|txids|, height, pos))
    ensures InTree(|txids|, height - 1, 2 * pos)
    ensures var part, left := Build(f, txids, matched, height, pos), Build(f, txids, matched, height - 1, 2 * pos);
      if InTree(|txids|, height - 1, 2 * pos + 1) then
        var right := Build(f, txids, matched, height - 1, 2 * pos + 1);
        part.bits == [true] + (left.bits + right.bits) && part.hashes == left.hashes + right.hashes
      else part.bits == [true] + left.bits && part.hashes == left.hashes
  {
    Children(|txids|, height, pos);
  }

  lemma StandsBoth(f: PairHash, txids: seq<Hash>, matched: seq<bool>, code: Code,
                   height: nat, pos: nat, bitsUsed: nat, hashesUsed: nat)
    requires |matched| == |txids| && InTree(|txids|, height, pos)
      && Stands(f, txids, matched, code, height, pos, bitsUsed, hashesUsed)
    requires height > 0 && AnyMatch(matched, Low(height, pos), High(|txids|, height, pos))
    ensures InTree(|txids|, height - 1, 2 * pos)
    ensures bitsUsed < |code.bits| && code.bits[bitsUsed]
    ensures Stands(f, txids, matched, code, height - 1, 2 * pos, bitsUsed + 1, hashesUsed)
    ensures InTree(|txids|, height - 1, 2 * pos + 1) ==>
      var left := Build(f, txids, matched, height - 1, 2 * pos);
      Stands(f, txids, matched, code, height - 1, 2 * pos + 1, bitsUsed + 1 + |left.bits|, hashesUsed + |left.hashes|)
  {
    BuildBoth(f, txids, matched, height, pos);
    var left := Build(f, txids, matched, height - 1, 2 * pos);
    if InTree(|txids|, height - 1, 2 * pos + 1) {
      var right := Build(f, txids, matched, height - 1, 2 * pos + 1);
      HoldsFirst(code.bits, true, left.bits + right.bits, bitsUsed);
      HoldsSplit(code.bits, left.bits, right.bits, bitsUsed + 1);
      HoldsSplit(code.hashes, left.hashes, right.hashes, hashesUsed);
    } else {
      HoldsFirst(code.bits, true, left.bits, bitsUsed);
    }
  }

  lemma HoldsFirst<T>(whole: seq<T>, a: T, b: seq<T>, at: nat)
    requires Holds(whole, [a] + b, at)
    ensures at < |whole| && whole[at] == a && Holds(whole, b, at + 1)
  {
    HoldsSplit(whole, [a], b, at);
    assert whole[at] == whole[at..at + 1][0];
  }

  /** A node decodes if its children do. */
  lemma DecodeBoth(f: PairHash, txids: seq<Hash>, matched: seq<bool>, code: Code,
                   height: nat, pos: nat, bitsUsed: nat, hashesUsed: nat)
    requires |matched| == |txids| && InTree(|txids|, height, pos)
    requires height > 0 && AnyMatch(matched, Low(height, pos), High(|txids|, height, pos))
    requires InTree(|txids|, height - 1, 2 * pos) && bitsUsed < |code.bits| && code.bits[bitsUsed]
    requires Decodes(f, txids, matched, code, height - 1, 2 * pos, bitsUsed + 1, hashesUsed)
    requires InTree(|txids|, height - 1, 2 * pos + 1) ==>
      var left := Build(f, txids, matched, height - 1, 2 * pos);
      Decodes(f, txids, matched, code, height - 1, 2 * pos + 1, bitsUsed + 1 + |left.bits|, hashesUsed + |left.hashes|)
    ensures Decodes(f, txids, matched, code, height, pos, bitsUsed, hashesUsed)
  {
    var n := |txids|;
    Children(n, height, pos);
    BuildBoth(f, txids, matched, height, pos);
    var lo, mid, hi := Low(height, pos), Low(height - 1, 2 * pos + 1), High(n, height, pos);
    if InTree(n, height - 1, 2 * pos + 1) {
      MatchedSplit(txids, matched, lo, mid, hi);
      assert High(n, height - 1, 2 * pos) == mid && High(n, height - 1, 2 * pos + 1) == hi;
    } else {
      assert High(n, height - 1, 2 * pos) == hi;
    }
  }

  lemma {:induction false} ExtractBuild(f: PairHash, txids: seq<Hash>, matched: seq<bool>, code: Code,
                                        height: nat, pos: nat, bitsUsed: nat, hashesUsed: nat)
    requires |matched| == |txids| && InTree(|txids|, height, pos)
      && Stands(f, txids, matched, code, height, pos, bitsUsed, hashesUsed)
    ensures Decodes(f, txids, matched, code, height, pos, bitsUsed, hashesUsed)
    decreases height, 1
  {
    if height == 0 || !AnyMatch(matched, Low(height, pos), High(|txids|, height, pos)) {
      DecodeStop(f, txids, matched, code, height, pos, bitsUsed, hashesUsed);
    } else {
      ExtractBoth(f, txids, matched, code, height, pos, bitsUsed, hashesUsed);
    }
  }

  lemma {:induction false} ExtractBoth(f: PairHash, txids: seq<Hash>, matched: seq<bool>, code: Code,
                                       height: nat, pos: nat, bitsUsed: nat, hashesUsed: nat)
    requires |matched| == |txids| && InTree(|txids|, height, pos)
      && Stands(f, txids, matched, code, height, pos, bitsUsed, hashesUsed)
    requires height > 0 && AnyMatch(matched, Low(height, pos), High(|txids|, height, pos))
    ensures Decodes(f, txids, matched, code, height, pos, bitsUsed, hashesUsed)
    decreases height, 0
  {
    StandsBoth(f, txids, matched, code, height, pos, bitsUsed, hashesUsed);
    ExtractBuild(f, txids, matched, code, height - 1, 2 * pos, bitsUsed + 1, hashesUsed);
    if InTree(|txids|, height - 1, 2 * pos + 1) {
      var left := Build(f, txids, matched, height - 1, 2 * pos);
      ExtractBuild(f, txids, matched, code, height - 1, 2 * pos + 1, bitsUsed + 1 + |left.bits|,
                   hashesUsed + |left.hashes|);
    }
    DecodeBoth(f, txids, matched, code, height, pos, bitsUsed, hashesUsed);
  }

  /** With a collision-free hash and distinct ids no siblings clash. */
  lemma {:induction false} NoClash(f: PairHash, txids: seq<Hash>, matched: seq<bool>, height: nat, pos: nat)
    requires CollisionFree(f) && Distinct(txids) && |matched| == |txids| && InTree(|txids|, height, pos)
    ensures !Clash(f, txids, matched, height, pos)
    decreases height
  {
    if height > 0 {
      Children(|txids|, height, pos);
      NoClash(f, txids, matched, height - 1, 2 * pos);
      if InTree(|txids|, height - 1, 2 * pos + 1) {
        NoClash(f, txids, matched, height - 1, 2 * pos + 1);
        NodesDiffer(f, txids, height - 1, 2 * pos, 2 * pos + 1);
      }
    }
  }

  /** An arbitrary code whose decoded hash is the hash of the true node can only
      report transactions that are really there. */
  lemma {:induction false} ExtractAuthentic(f: PairHash, txids: seq<Hash>, code: Code,
                                            height: nat, pos: nat, bitsUsed: nat, hashesUsed: nat)
    requires CollisionFree(f) && InTree(|txids|, height, pos)
    requires Extract(f, |txids|, code, height, pos, bitsUsed, hashesUsed).hash == CalcHash(f, txids, height, pos)
    ensures forall k :: 0 <= k < |Extract(f, |txids|, code, height, pos, bitsUsed, hashesUsed).found| ==>
      var (hash, index) := Extract(f, |txids|, code, height, pos, bitsUsed, hashesUsed).found[k];
      index < |txids| && txids[index] == hash
    decreases height
  {
    if bitsUsed < |code.bits| && height > 0 && code.bits[bitsUsed] {
      Children(|txids|, height, pos);
      var l := Extract(f, |txids|, code, height - 1, 2 * pos, bitsUsed + 1, hashesUsed);
      if InTree(|txids|, height - 1, 2 * pos + 1) {
        var r := Extract(f, |txids|, code, height - 1, 2 * pos + 1, l.bitsUsed, l.hashesUsed);
        assert Determines(f, l.hash, r.hash, LeftHash(f, txids, height, pos), RightHash(f, txids, height, pos));
        ExtractAuthentic(f, txids, code, height - 1, 2 * pos + 1, l.bitsUsed, l.hashesUsed);
      } else {
        assert Determines(f, l.hash, l.hash, LeftHash(f, txids, height, pos), RightHash(f, txids, height, pos));
      }
      ExtractAuthentic(f, txids, code, height - 1, 2 * pos, bitsUsed + 1, hashesUsed);
    }
  }

  // ----- sizes

  /** Nodes above a match that have a single child. */
  ghost function Singles(n: nat, matched: seq<bool>, height: nat, pos: nat): nat
    requires |matched| == n && InTree(n, height, pos)
    decreases height
  {
    if height == 0 || !AnyMatch(matched, Low(height, pos), High(n, height, pos)) then 0 else
    Children(n, height, pos);
    Singles(n, matched, height - 1, 2 * pos)
      + if InTree(n, height - 1, 2 * pos + 1) then Singles(n, matched, height - 1, 2 * pos + 1) else 1
  }

  lemma {:induction false} FoundSome(txids: seq<Hash>, matched: seq<bool>, lo: nat, hi: nat)
    requires lo <= hi <= |txids| == |matched| && AnyMatch(matched, lo, hi)
    ensures |MatchedIn(txids, matched, lo, hi)| >= 1
    decreases hi - lo
  {
    var p :| lo <= p < hi && IsHit(matched, p);
    if p != lo {
      assert AnyMatch(matched, lo + 1, hi);
      FoundSome(txids, matched, lo + 1, hi);
    }
  }

  /** The stored hashes are at most one per transaction, and the bits are twice the
      hashes less one, and one more for every node with a single child. */
  lemma {:induction false} CodeSize(f: PairHash, txids: seq<Hash>, matched: seq<bool>, height: nat, pos: nat)
    requires |matched| == |txids| && InTree(|txids|, height, pos)
    ensures var part := Build(f, txids, matched, height, pos);
      && 1 <= |part.hashes| <= High(|txids|, height, pos) - Low(height, pos)
      && |part.bits| == 2 * |part.hashes| - 1 + Singles(|txids|, matched, height, pos)
    decreases height
  {
    var n := |txids|;
    if height > 0 && AnyMatch(matched, Low(height, pos), High(n, height, pos)) {
      Children(n, height, pos);
      BuildBoth(f, txids, matched, height, pos);
      CodeSize(f, txids, matched, height - 1, 2 * pos);
      if InTree(n, height - 1, 2 * pos + 1) {
        CodeSize(f, txids, matched, height - 1, 2 * pos + 1);
      }
    }
  }

  /** The stored hashes are at most one more than the height for each match. */
  lemma {:induction false} HashesPerMatch(f: PairHash, txids: seq<Hash>, matched: seq<bool>, height: nat, pos: nat)
    requires |matched| == |txids| && InTree(|txids|, height, pos)
    ensures |Build(f, txids, matched, height, pos).hashes| <=
      1 + |MatchedIn(txids, matched, Low(height, pos), High(|txids|, height, pos))| * height
    decreases height
  {
    var n := |txids|;
    var lo, hi := Low(height, pos), High(n, height, pos);
    if height > 0 && AnyMatch(matched, lo, hi) {
      Children(n, height, pos);
      BuildBoth(f, txids, matched, height, pos);
      HashesPerMatch(f, txids, matched, height - 1, 2 * pos);
      FoundSome(txids, matched, lo, hi);
      var m := |MatchedIn(txids, matched, lo, hi)|;
      if InTree(n, height - 1, 2 * pos + 1) {
        HashesPerMatch(f, txids, matched, height - 1, 2 * pos + 1);
        var mid := Low(height - 1, 2 * pos + 1);
        MatchedSplit(txids, matched, lo, mid, hi);
        SizeArithmetic(|MatchedIn(txids, matched, lo, mid)|, |MatchedIn(txids, matched, mid, hi)|, height);
      } else {
        SizeArithmetic(m, 0, height);
      }
    }
  }

  lemma SizeArithmetic(a: nat, b: nat, height: nat)
    requires a + b >= 1 && height > 0
    ensures (1 + a * (height - 1)) + (1 + b * (height - 1)) <= 1 + (a + b) * height
  {
    assert (a + b) * height == (a + b) * (height - 1) + (a + b);
    assert (a + b) * (height - 1) == a * (height - 1) + b * (height - 1);
  }

  // ----- whole trees

  /** The least height at which the tree has a single node. */
  function HeightFrom(n: nat, height: nat): (h: nat)
    ensures !InTree(n, h, 1)
    decreases n - Low(height, 1)
  {
    if InTree(n, height, 1) then
      LowMonotone(height, 1, 2);
      HeightFrom(n, height + 1)
    else height
  }

  function TreeHeight(n: nat): nat {
    HeightFrom(n, 0)
  }

  const MAX_BLOCK_BASE_SIZE: nat := 1000000

  lemma WholeTree(n: nat)
    requires n > 0
    ensures InTree(n, TreeHeight(n), 0) && Low(TreeHeight(n), 0) == 0 && High(n, TreeHeight(n), 0) == n
  {
    LowZero(TreeHeight(n));
  }

  lemma {:induction false} LowZero(height: nat)
    ensures Low(height, 0) == 0
  {
    if height > 0 {
      LowZero(height - 1);
    }
  }

  datatype PartialTree = PartialTree(n: nat, code: Code, bad: bool)

  ghost function Encode(f: PairHash, txids: seq<Hash>, matched: seq<bool>): PartialTree
    requires |matched| == |txids| && |txids| > 0
  {
    WholeTree(|txids|);
    PartialTree(|txids|, Build(f, txids, matched, TreeHeight(|txids|), 0), false)
  }

  ghost predicate Clashes(f: PairHash, txids: seq<Hash>, matched: seq<bool>)
    requires |matched| == |txids| && |txids| > 0
  {
    WholeTree(|txids|);
    Clash(f, txids, matched, TreeHeight(|txids|), 0)
  }

  // ----- the root, level by level

  /** Neighbours are hashed in pairs, left before right; a last one alone with itself. */
  function NextLevel(f: PairHash, level: seq<Hash>): (next: seq<Hash>)
    ensures |next| == (|level| + 1) / 2
  {
    seq((|level| + 1) / 2, i requires 0 <= i < (|level| + 1) / 2 =>
      f(level[2 * i], if 2 * i + 1 < |level| then level[2 * i + 1] else level[2 * i]))
  }

  /** The hash that is left when levels are built until there is only one. */
  function MerkleRoot(f: PairHash, level: seq<Hash>): Hash
    requires |level| > 0
    decreases |level|
  {
    if |level| == 1 then level[0] else MerkleRoot(f, NextLevel(f, level))
  }

  /** The number of nodes at a height, by halving. */
  function Halved(n: nat, height: nat): nat {
    if height == 0 then n else (Halved(n, height - 1) + 1) / 2
  }

  lemma {:induction false} HalvedIsInTree(n: nat, height: nat, pos: nat)
    ensures pos < Halved(n, height) <==> InTree(n, height, pos)
  {
    if height > 0 {
      HalvedIsInTree(n, height - 1, 2 * pos);
    }
  }

  ghost function Nodes(f: PairHash, txids: seq<Hash>, height: nat): (level: seq<Hash>)
    ensures |level| == Halved(|txids|, height)
  {
    seq(Halved(|txids|, height), pos requires 0 <= pos < Halved(|txids|, height) =>
      HalvedIsInTree(|txids|, height, pos);
      CalcHash(f, txids, height, pos))
  }

  lemma NodesArePaired(f: PairHash, txids: seq<Hash>, height: nat)
    ensures Nodes(f, txids, height + 1) == NextLevel(f, Nodes(f, txids, height))
  {
    var n, level := |txids|, Nodes(f, txids, height);
    forall pos: nat | pos < Halved(n, height + 1)
      ensures Nodes(f, txids, height + 1)[pos] == NextLevel(f, level)[pos]
    {
      HalvedIsInTree(n, height + 1, pos);
      HalvedIsInTree(n, height, 2 * pos);
      HalvedIsInTree(n, height, 2 * pos + 1);
      var left, right := LeftHash(f, txids, height + 1, pos), RightHash(f, txids, height + 1, pos);
      assert Nodes(f, txids, height + 1)[pos] == CalcHash(f, txids, height + 1, pos) == f(left, right);
      assert left == level[2 * pos];
      assert right == if 2 * pos + 1 < |level| then level[2 * pos + 1] else level[2 * pos];
    }
  }

  /** The hash of the top node is the root. */
  lemma {:induction false} TopIsRoot(f: PairHash, txids: seq<Hash>, height: nat)
    requires |txids| > 0 && Nodes(f, txids, height) != []
    ensures InTree(|txids|, HeightFrom(|txids|, height), 0)
    ensures CalcHash(f, txids, HeightFrom(|txids|, height), 0) == MerkleRoot(f, Nodes(f, txids, height))
    decreases |txids| - Low(height, 1)
  {
    var n := |txids|;
    HalvedIsInTree(n, height, 0);
    HalvedIsInTree(n, height, 1);
    if InTree(n, height, 1) {
      LowMonotone(height, 1, 2);
      NodesArePaired(f, txids, height);
      TopIsRoot(f, txids, height + 1);
    }
  }

  lemma RootIsTop(f: PairHash, txids: seq<Hash>)
    requires |txids| > 0
    ensures InTree(|txids|, TreeHeight(|txids|), 0)
    ensures MerkleRoot(f, txids) == CalcHash(f, txids, TreeHeight(|txids|), 0)
  {
    assert Nodes(f, txids, 0) == txids;
    TopIsRoot(f, txids, 0);
  }

  /** The checks of ExtractMatches that come before the traversal. */
  predicate Plausible(t: PartialTree) {
    && t.n != 0
    && t.n <= MAX_BLOCK_BASE_SIZE / 60
    && |t.code.hashes| <= t.n
    && |t.code.bits| >= |t.code.hashes|
  }

  /** The checks that come after it: no problem, and everything consumed. */
  function Verdict(t: PartialTree, e: Extracted): Hash {
    if t.bad || e.bad || (e.bitsUsed + 7) / 8 != (|t.code.bits| + 7) / 8 || e.hashesUsed != |t.code.hashes|
    then NULL_HASH else e.hash
  }

  function Traversed(f: PairHash, t: PartialTree): Extracted {
    Extract(f, t.n, t.code, TreeHeight(t.n), 0, 0, 0)
  }

  /** The root or the null hash, and the transactions found on the way. */
  function ExtractMatches(f: PairHash, t: PartialTree): (Hash, seq<(Hash, nat)>) {
    if !Plausible(t) then (NULL_HASH, []) else (Verdict(t, Traversed(f, t)), Traversed(f, t).found)
  }

  /** Decoding an encoded tree, its bits possibly padded to whole bytes: the result
      is the true root and exactly the matched transactions with their indices in
      order, unless two decoded siblings have the same hash. */
  lemma RoundTrip(f: PairHash, txids: seq<Hash>, matched: seq<bool>, padding: seq<bool>)
    requires |matched| == |txids| && 0 < |txids| <= MAX_BLOCK_BASE_SIZE / 60
    requires (|Encode(f, txids, matched).code.bits + padding| + 7) / 8 ==
      (|Encode(f, txids, matched).code.bits| + 7) / 8
    ensures var t := Encode(f, txids, matched);
      ExtractMatches(f, t.(code := t.code.(bits := t.code.bits + padding))) ==
        (if Clashes(f, txids, matched) then NULL_HASH else MerkleRoot(f, txids),
         MatchedIn(txids, matched, 0, |txids|))
  {
    var n := |txids|;
    WholeTree(n);
    var t := Encode(f, txids, matched);
    var code := t.code.(bits := t.code.bits + padding);
    CodeSize(f, txids, matched, TreeHeight(n), 0);
    assert Holds(code.bits, t.code.bits, 0);
    assert Holds(code.hashes, t.code.hashes, 0);
    ExtractBuild(f, txids, matched, code, TreeHeight(n), 0, 0, 0);
    RootIsTop(f, txids);
  }

  /** The same for distinct ids and a collision-free hash: nothing can fail. */
  lemma RoundTripDistinct(f: PairHash, txids: seq<Hash>, matched: seq<bool>, padding: seq<bool>)
    requires |matched| == |txids| && 0 < |txids| <= MAX_BLOCK_BASE_SIZE / 60
    requires CollisionFree(f) && Distinct(txids)
    requires (|Encode(f, txids, matched).code.bits + padding| + 7) / 8 ==
      (|Encode(f, txids, matched).code.bits| + 7) / 8
    ensures var t := Encode(f, txids, matched);
      ExtractMatches(f, t.(code := t.code.(bits := t.code.bits + padding))) ==
        (MerkleRoot(f, txids), MatchedIn(txids, matched, 0, |txids|))
  {
    WholeTree(|txids|);
    RoundTrip(f, txids, matched, padding);
    NoClash(f, txids, matched, TreeHeight(|txids|), 0);
  }

  /** What an accepted tree is: of a possible size, with at most a hash for every transaction
      and a bit for every hash, and with nothing unused but padding to a whole byte. */
  lemma AcceptedIs(f: PairHash, t: PartialTree)
    requires ExtractMatches(f, t).0 != NULL_HASH
    ensures 0 < t.n <= 16666 && |t.code.hashes| <= t.n && |t.code.hashes| <= |t.code.bits| && !t.bad
    ensures var e := Traversed(f, t);
      !e.bad && e.hashesUsed == |t.code.hashes| && (e.bitsUsed <= |t.code.bits| ==> |t.code.bits| < e.bitsUsed + 8)
  {
  }

  /** Whatever an attacker sends: if the decoded root is the root of the true list,
      every reported transaction is in the list at the reported index. */
  lemma Authentic(f: PairHash, txids: seq<Hash>, t: PartialTree)
    requires CollisionFree(f) && |txids| > 0 && t.n == |txids|
    requires ExtractMatches(f, t).0 == MerkleRoot(f, txids) != NULL_HASH
    ensures forall k :: 0 <= k < |ExtractMatches(f, t).1| ==>
      var (hash, index) := ExtractMatches(f, t).1[k];
      index < |txids| && txids[index] == hash
  {
    WholeTree(|txids|);
    RootIsTop(f, txids);
    ExtractAuthentic(f, txids, t.code, TreeHeight(t.n), 0, 0, 0);
  }

  /** A node above a match whose right child would lie beyond the last transaction. */
  ghost predicate Single(n: nat, matched: seq<bool>, height: nat, pos: nat)
    requires |matched| == n
  {
    && height > 0
    && InTree(n, height, pos)
    && !InTree(n, height - 1, 2 * pos + 1)
    && AnyMatch(matched, Low(height, pos), High(n, height, pos))
  }

  ghost predicate SingleBelow(n: nat, matched: seq<bool>, height: nat, pos: nat, k: nat, p: nat)
    requires |matched| == n
  {
    k <= height && Single(n, matched, k, p) && Low(height, pos) <= Low(k, p) < High(n, height, pos)
  }

  lemma {:induction false} SinglesFind(n: nat, matched: seq<bool>, height: nat, pos: nat) returns (k: nat, p: nat)
    requires |matched| == n && InTree(n, height, pos) && Singles(n, matched, height, pos) > 0
    ensures SingleBelow(n, matched, height, pos, k, p)
    decreases height
  {
    Children(n, height, pos);
    if !InTree(n, height - 1, 2 * pos + 1) {
      k, p := height, pos;
    } else if Singles(n, matched, height - 1, 2 * pos) > 0 {
      k, p := SinglesFind(n, matched, height - 1, 2 * pos);
    } else {
      k, p := SinglesFind(n, matched, height - 1, 2 * pos + 1);
    }
  }

  lemma {:induction false} SinglesCount(n: nat, matched: seq<bool>, height: nat, pos: nat, k: nat, p: nat)
    requires |matched| == n && InTree(n, height, pos) && SingleBelow(n, matched, height, pos, k, p)
    ensures Singles(n, matched, height, pos) > 0
    decreases height
  {
    RangeInside(n, height, pos, k, p);
    var q :| Low(k, p) <= q < High(n, k, p) && IsHit(matched, q);
    assert AnyMatch(matched, Low(height, pos), High(n, height, pos));
    Children(n, height, pos);
    if k < height && InTree(n, height - 1, 2 * pos + 1) {
      if Low(k, p) < Low(height - 1, 2 * pos + 1) {
        SinglesCount(n, matched, height - 1, 2 * pos, k, p);
      } else {
        SinglesCount(n, matched, height - 1, 2 * pos + 1, k, p);
      }
    } else if k == height {
      LowOrder(height, pos, p);
    }
  }

  lemma LowOrder(height: nat, a: nat, b: nat)
    requires Low(height, a) <= Low(height, b) < Low(height, a + 1)
    ensures a == b
  {
    if b < a {
      LowMonotone(height, b, a);
    } else if b > a + 1 {
      LowMonotone(height, a + 1, b);
    }
  }

  /** A node that starts inside another one of at least its height ends inside it. */
  lemma {:induction false} RangeInside(n: nat, height: nat, pos: nat, k: nat, p: nat)
    requires k <= height && Low(height, pos) <= Low(k, p) < Low(height, pos + 1)
    ensures Low(k, p + 1) <= Low(height, pos + 1) && High(n, k, p) <= High(n, height, pos)
    decreases height
  {
    if k == height {
      LowOrder(height, pos, p);
    } else {
      Children(n, height, pos);
      if Low(k, p) < Low(height - 1, 2 * pos + 1) {
        RangeInside(n, height - 1, 2 * pos, k, p);
      } else {
        RangeInside(n, height - 1, 2 * pos + 1, k, p);
      }
    }
  }

  /** The remark that 2N - 1 bits suffice for N hashes holds exactly when no node
      above a match has a single child. */
  lemma BitsRemark(f: PairHash, txids: seq<Hash>, matched: seq<bool>)
    requires |matched| == |txids| > 0
    ensures var code := Encode(f, txids, matched).code;
      |code.bits| <= 2 * |code.hashes| - 1 <==>
        !exists k: nat, p: nat :: k <= TreeHeight(|txids|) && Single(|txids|, matched, k, p)
  {
    var n := |txids|;
    var h := TreeHeight(n);
    WholeTree(n);
    CodeSize(f, txids, matched, h, 0);
    if Singles(n, matched, h, 0) > 0 {
      var k, p := SinglesFind(n, matched, h, 0);
    }
    forall k: nat, p: nat | k <= h && Single(n, matched, k, p) ensures Singles(n, matched, h, 0) > 0 {
      SinglesCount(n, matched, h, 0, k, p);
    }
  }

  /** It fails for three transactions of which the last is matched. */
  lemma BitsRemarkFails(f: PairHash, txids: seq<Hash>)
    requires |txids| == 3
    ensures var code := Encode(f, txids, [false, false, true]).code;
      |code.bits| == 4 && |code.hashes| == 2
  {
    var matched := [false, false, true];
    assert HeightFrom(3, 1) == HeightFrom(3, 2) == 2;
    assert Low(2, 0) == Low(1, 0) == 0 && Low(1, 1) == 2 && Low(1, 2) == 4 && Low(2, 1) == Low(1, 2);
    assert IsHit(matched, 2) && !IsHit(matched, 0) && !IsHit(matched, 1);
    assert AnyMatch(matched, 0, 3) && !AnyMatch(matched, 0, 2) && AnyMatch(matched, 2, 3);
    BuildBoth(f, txids, matched, 2, 0);
    BuildBoth(f, txids, matched, 1, 1);
  }
}

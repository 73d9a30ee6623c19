/** Block index entries linked by parent and skip pointers, and the active chain as
    a vector of them. Trees may start above height zero. */
module Chain {
  import opened Numbers

  // ----- skip heights

  function InvertLowestOne(n: nat): nat {
    if n == 0 then 0 else And(n, n - 1)
  }

  lemma {:induction false} AndSelf(a: nat)
    ensures And(a, a) == a
  {
    if a != 0 {
      AndSelf(a / 2);
    }
  }

  /** It clears the lowest set bit. */
  lemma InvertsLowestOne(n: nat)
    requires n > 0
    ensures InvertLowestOne(n) == if n % 2 == 1 then n - 1 else 2 * InvertLowestOne(n / 2)
  {
    if n % 2 == 1 {
      AndSelf(n / 2);
      assert (n - 1) / 2 == n / 2;
    } else {
      assert (n - 1) / 2 == n / 2 - 1;
    }
  }

  function GetSkipHeight(height: int): int {
    if height < 2 then 0
    else if height % 2 == 1 then InvertLowestOne(InvertLowestOne(height - 1)) + 1
    else InvertLowestOne(height)
  }

  /** A skip always goes back, and never below zero. */
  lemma SkipGoesBack(height: int)
    requires height >= 1
    ensures 0 <= GetSkipHeight(height) < height
  {
    if height >= 2 {
      AndBelow(height, height - 1);
      AndBelow(height - 1, height - 2);
      var x := InvertLowestOne(height - 1);
      if x > 0 {
        AndBelow(x, x - 1);
      }
    }
  }

  /** The lowest set bit of a number, wherever it is. */
  lemma {:induction false} LowestOneCleared(m: nat, k: nat)
    ensures InvertLowestOne((2 * m + 1) * Pow2(k)) == 2 * m * Pow2(k)
    decreases k
  {
    var n := (2 * m + 1) * Pow2(k);
    if k == 0 {
      InvertsLowestOne(n);
    } else {
      Doubled(2 * m + 1, k);
      Doubled(2 * m, k);
      InvertsLowestOne(n);
      LowestOneCleared(m, k - 1);
    }
  }

  lemma Doubled(a: nat, k: nat)
    requires k > 0
    ensures a * Pow2(k) == 2 * (a * Pow2(k - 1)) && (a > 0 ==> a * Pow2(k) > 0)
  {
    MulMonotone(1, Pow2(k), a);
  }

  /** An even height skips to the height without its lowest set bit. */
  lemma SkipFromEven(m: nat, k: nat)
    requires k > 0
    ensures GetSkipHeight((2 * m + 1) * Pow2(k)) == 2 * m * Pow2(k)
  {
    Doubled(2 * m + 1, k);
    LowestOneCleared(m, k);
  }

  /** The height after an even one with two or more set bits skips to the one after what is left
      without the two lowest. */
  lemma SkipFromOdd(m: nat, l: nat, k: nat)
    requires k > 0
    ensures var even := (2 * ((2 * m + 1) * Pow2(l)) + 1) * Pow2(k);
      GetSkipHeight(even + 1) == 2 * m * Pow2(l + 1 + k) + 1
  {
    var a := (2 * m + 1) * Pow2(l);
    Doubled(2 * a + 1, k);
    LowestOneCleared(a, k);
    Regrouped(2 * m + 1, l, k);
    LowestOneCleared(m, l + 1 + k);
    SkipTwice((2 * a + 1) * Pow2(k), (2 * a + 1) * Pow2(k - 1), 2 * a * Pow2(k), 2 * m * Pow2(l + 1 + k));
  }

  lemma SkipTwice(even: nat, half: nat, once: nat, twice: nat)
    requires even == 2 * half > 0 && InvertLowestOne(even) == once && InvertLowestOne(once) == twice
    ensures GetSkipHeight(even + 1) == twice + 1
  {
  }

  lemma Regrouped(a: nat, l: nat, k: nat)
    ensures 2 * (a * Pow2(l)) * Pow2(k) == a * Pow2(l + 1 + k)
  {
    Pow2Add(l + 1, k);
    assert a * Pow2(l + 1) == 2 * (a * Pow2(l));
    assert a * Pow2(l + 1) * Pow2(k) == a * (Pow2(l + 1) * Pow2(k));
  }

  // ----- block index entries

  class BlockIndex {
    const pprev: BlockIndex?
    const nHeight: nat
    var pskip: BlockIndex?
    /** All blocks from the root of the tree to this one. */
    ghost const path: seq<BlockIndex>

    ghost predicate Linked()
      decreases |path|
    {
      && |path| > 0
      && path[|path| - 1] == this
      && if pprev == null then |path| == 1
         else |path| >= 2 && pprev.path == path[..|path| - 1] && pprev.nHeight + 1 == nHeight && pprev.Linked()
    }

    ghost predicate SkipOk()
      reads this
    {
      pskip == null || (pskip in path && pskip.nHeight == GetSkipHeight(nHeight))
    }

    /** A block of a tree grown by appending: every skip pointer on the way to the
        root is null or leads to the ancestor at the skip height. */
    ghost predicate InTree()
      reads path
    {
      Linked() && forall i :: 0 <= i < |path| ==> path[i].SkipOk()
    }

    lemma PathAt(i: nat)
      requires Linked() && i < |path|
      ensures path[i].path == path[..i + 1] && path[i].Linked()
      ensures path[i].nHeight == nHeight - (|path| - 1 - i)
      ensures i > 0 ==> path[i].pprev == path[i - 1]
      ensures i == 0 ==> path[i].pprev == null
      decreases |path|
    {
      if i == |path| - 1 {
        assert path[..i + 1] == path;
      } else {
        pprev.PathAt(i);
        assert pprev.path[i] == path[i] && pprev.path[..i + 1] == path[..i + 1];
      }
    }

    ghost function Base(): nat
      requires |path| > 0
    {
      path[0].nHeight
    }

    /** The block on the way to the root that has the given height, if there is one. */
    ghost function At(height: int): BlockIndex?
      requires |path| > 0
    {
      var i := height - path[0].nHeight;
      if 0 <= i < |path| then path[i] else null
    }

    /** The plain walk over parent pointers. */
    ghost function Walk(height: int): BlockIndex?
      requires Linked()
      decreases |path|
    {
      if nHeight == height then this
      else if nHeight < height || pprev == null then null
      else pprev.Walk(height)
    }

    lemma WalkIsAt(height: int)
      requires Linked()
      ensures Walk(height) == At(height)
      decreases |path|
    {
      PathAt(0);
      if pprev != null && height < nHeight {
        pprev.WalkIsAt(height);
        assert pprev.path[0] == path[0];
      }
    }

    /** The parent of the block at a height is the block one below. */
    lemma StepDown(height: int)
      requires Linked() && At(height) != null
      ensures At(height).nHeight == height && At(height).pprev == At(height - 1)
    {
      PathAt(0);
      PathAt(height - path[0].nHeight);
    }

    lemma Reaches(c: BlockIndex)
      requires Linked() && c in path
      ensures At(c.nHeight) == c && Base() <= c.nHeight <= nHeight
    {
      var i :| 0 <= i < |path| && path[i] == c;
      PathAt(i);
      PathAt(0);
    }

    constructor (pprev: BlockIndex?, nHeight: nat)
      requires pprev != null ==> pprev.InTree() && nHeight == pprev.nHeight + 1
      ensures this.pprev == pprev && this.nHeight == nHeight && InTree() && pskip == null
      ensures path == (if pprev == null then [] else pprev.path) + [this]
    {
      this.pprev, this.nHeight, pskip := pprev, nHeight, null;
      path := (if pprev == null then [] else pprev.path) + [this];
    }

    /** The skip walk ends where the plain walk ends: at the ancestor of that height,
        or nowhere when the tree does not reach down to it. */
    method GetAncestor(height: int) returns (r: BlockIndex?)
      requires InTree()
      ensures r == Walk(height)
      ensures r == null <==> height > nHeight || height < Base()
    {
      WalkIsAt(height);
      PathAt(0);
      if height > nHeight || height < 0 {
        return null;
      }
      var walk: BlockIndex := this;
      ghost var i := |path| - 1;
      while walk.nHeight > height
        invariant 0 <= i < |path| && walk == path[i] && walk.nHeight == path[0].nHeight + i
        invariant walk.nHeight >= height
        decreases walk.nHeight
      {
        PathAt(i);
        SkipGoesBack(walk.nHeight);
        var skip := GetSkipHeight(walk.nHeight);
        var skipPrev := GetSkipHeight(walk.nHeight - 1);
        if walk.pskip != null && (skip == height || (skip > height && !(skipPrev < skip - 2 && skipPrev >= height))) {
          assert walk.SkipOk();
          ghost var j :| 0 <= j < |walk.path| && walk.path[j] == walk.pskip;
          PathAt(j);
          i := j;
          walk := walk.pskip;
        } else if walk.pprev != null {
          i := i - 1;
          PathAt(i);
          walk := walk.pprev;
        } else {
          return null;
        }
      }
      r := walk;
    }

    /** Every skip pointer set this way leads to the ancestor at the skip height. */
    method BuildSkip()
      requires InTree()
      modifies this`pskip
      ensures InTree()
      ensures pskip == if pprev == null then old(pskip) else pprev.Walk(GetSkipHeight(nHeight))
    {
      if pprev != null {
        Parents();
        var skip := pprev.GetAncestor(GetSkipHeight(nHeight));
        ghost var h := GetSkipHeight(nHeight);
        pprev.WalkIsAt(h);
        if skip != null {
          pprev.StepDown(h);
          assert skip in pprev.path;
        }
        pskip := skip;
        forall j | 0 <= j < |path|
          ensures path[j].SkipOk()
        {
          PathAt(j);
          assert old(path[j].SkipOk());
        }
      }
    }

    lemma Parents()
      requires InTree() && pprev != null
      ensures pprev.InTree()
    {
      forall i | 0 <= i < |pprev.path|
        ensures pprev.path[i].SkipOk()
      {
        assert path[i].SkipOk();
      }
    }
  }

  /** The blocks of two paths agree exactly up to the last block they share. */
  ghost predicate ForksAfter(a: BlockIndex, b: BlockIndex, r: BlockIndex?) {
    if r == null then forall c :: c in a.path ==> c !in b.path
    else
      && r in a.path && r in b.path
      && forall c :: c in a.path && c in b.path ==> c.nHeight <= r.nHeight
  }

  lemma SharedIndex(a: BlockIndex, b: BlockIndex, i: nat, j: nat)
    requires a.Linked() && b.Linked() && i < |a.path| && j < |b.path| && a.path[i] == b.path[j]
    ensures i == j && a.path[0] == b.path[0]
  {
    a.PathAt(i);
    b.PathAt(j);
    assert a.path[..i + 1][0] == b.path[..j + 1][0];
  }

  lemma SharedHeight(a: BlockIndex, b: BlockIndex, c: BlockIndex)
    requires a.Linked() && b.Linked() && c in a.path && c in b.path
    ensures a.At(c.nHeight) == c && b.At(c.nHeight) == c && a.path[0] == b.path[0]
    ensures a.Base() <= c.nHeight <= a.nHeight && c.nHeight <= b.nHeight
  {
    var i :| 0 <= i < |a.path| && a.path[i] == c;
    var j :| 0 <= j < |b.path| && b.path[j] == c;
    SharedIndex(a, b, i, j);
    a.PathAt(i);
    a.PathAt(0);
    b.PathAt(0);
  }

  /** Where two descents from the same height, with no common block above, must be. */
  lemma Meeting(a: BlockIndex, b: BlockIndex, h: int)
    requires a.Linked() && b.Linked() && -1 <= h <= a.nHeight && h <= b.nHeight
    requires h == a.nHeight || h == b.nHeight || (a.At(h + 1) != null && b.At(h + 1) != null)
    requires forall k :: h < k <= a.nHeight && h < k <= b.nHeight && a.At(k) != null ==> a.At(k) != b.At(k)
    requires a.At(h) == b.At(h) || a.At(h) == null || b.At(h) == null
    ensures a.At(h) == b.At(h) <==> a.Base() == b.Base()
    ensures a.At(h) == b.At(h) ==> ForksAfter(a, b, a.At(h)) && (a.At(h) == null <==> a.path[0] != b.path[0])
  {
    a.PathAt(0);
    b.PathAt(0);
    forall c | c in a.path && c in b.path
      ensures a.Base() <= c.nHeight <= h
    {
      SharedHeight(a, b, c);
      assert a.At(c.nHeight) == b.At(c.nHeight);
    }
    assert a.path[0] == b.path[0] ==> a.path[0] in b.path;
    if a.At(h) == b.At(h) {
      if a.At(h) != null {
        a.StepDown(h);
        assert a.At(h) in a.path && a.At(h) in b.path;
        SharedHeight(a, b, a.At(h));
      }
    } else {
      assert a.Base() != b.Base();
    }
  }

  /** The walk up to `LastCommonAncestor`'s closing assertion, with whether it holds.
      It holds exactly when the two trees start at the same height, and then the result
      is the highest block on both paths; it is absent only for unrelated trees. */
  method LastCommonAncestor(a: BlockIndex, b: BlockIndex) returns (met: bool, r: BlockIndex?)
    requires a.InTree() && b.InTree()
    ensures met <==> a.Base() == b.Base()
    ensures met ==> ForksAfter(a, b, r)
    ensures met ==> (r == null <==> a.path[0] != b.path[0])
  {
    var pa: BlockIndex?, pb: BlockIndex? := a, b;
    a.PathAt(0);
    b.PathAt(0);
    ghost var h := if a.nHeight > b.nHeight then b.nHeight else a.nHeight;
    if a.nHeight > b.nHeight {
      a.WalkIsAt(b.nHeight);
      pa := a.GetAncestor(b.nHeight);
    } else if b.nHeight > a.nHeight {
      b.WalkIsAt(a.nHeight);
      pb := b.GetAncestor(a.nHeight);
    }
    while pa != pb && pa != null && pb != null
      invariant h <= a.nHeight && h <= b.nHeight
      invariant pa == a.At(h) && pb == b.At(h)
      invariant forall k :: h < k <= a.nHeight && h < k <= b.nHeight && a.At(k) != null ==> a.At(k) != b.At(k)
      invariant h >= -1 && (h == a.nHeight || h == b.nHeight || (a.At(h + 1) != null && b.At(h + 1) != null))
      decreases h + 1
    {
      a.StepDown(h);
      b.StepDown(h);
      pa, pb := pa.pprev, pb.pprev;
      h := h - 1;
    }
    met := pa == pb;
    r := pa;
    Meeting(a, b, h);
  }

  /** Two roots of different height: the closing assertion fails. */
  method RootsApart() returns (met: bool)
    ensures !met
  {
    var a := new BlockIndex(null, 0);
    var b := new BlockIndex(null, 1);
    var ancestor;
    met, ancestor := LastCommonAncestor(a, b);
  }

  // ----- the chain as a vector

  /** One slot per height from the offset on; a block's parent is in the slot below it. */
  ghost predicate SlotOk(offset: nat, slots: seq<BlockIndex?>, i: int)
    requires 0 <= i < |slots|
  {
    var b := slots[i];
    b != null ==>
      && b.Linked() && b.nHeight == offset + i
      && (i > 0 && b.pprev != null ==> slots[i - 1] == b.pprev)
  }

  ghost predicate SlotsOk(offset: nat, slots: seq<BlockIndex?>) {
    forall i {:trigger SlotOk(offset, slots, i)} :: 0 <= i < |slots| ==> SlotOk(offset, slots, i)
  }

  /** The chain of a tip, filled from an empty vector. */
  ghost function Rebuilt(offset: nat, tip: BlockIndex): seq<BlockIndex?>
    requires tip.Linked() && tip.nHeight >= offset
  {
    seq(tip.nHeight - offset + 1, i requires 0 <= i < tip.nHeight - offset + 1 => tip.At(offset + i))
  }

  /** A slot after the vector was resized. */
  ghost function Resized(slots: seq<BlockIndex?>, i: nat): BlockIndex? {
    if i < |slots| then slots[i] else null
  }

  /** The vector after a new tip was set over an old one. */
  ghost function Refilled(offset: nat, slots: seq<BlockIndex?>, tip: BlockIndex): seq<BlockIndex?>
    requires tip.Linked() && tip.nHeight >= offset
  {
    seq(tip.nHeight - offset + 1, i requires 0 <= i < tip.nHeight - offset + 1 =>
      if offset + i >= tip.Base() then tip.At(offset + i) else Resized(slots, i))
  }

  /** Setting a tip leaves the chain of that tip exactly when nothing is left over at
      the heights below the first block of its tree. */
  lemma RefillIsRebuild(offset: nat, slots: seq<BlockIndex?>, tip: BlockIndex)
    requires tip.Linked() && tip.nHeight >= offset
    ensures Refilled(offset, slots, tip) == Rebuilt(offset, tip) <==>
      forall i :: 0 <= i < |slots| && offset + i < tip.Base() ==> slots[i] == null
  {
    var a, b := Refilled(offset, slots, tip), Rebuilt(offset, tip);
    tip.PathAt(0);
    forall i | 0 <= i < |a|
      ensures a[i] == b[i] <==> (offset + i < tip.Base() ==> Resized(slots, i) == null)
    {
      assert b[i] == tip.At(offset + i);
    }
    if a == b {
      forall i | 0 <= i < |slots| && offset + i < tip.Base()
        ensures slots[i] == null
      {
        assert a[i] == b[i];
        assert Resized(slots, i) == null;
      }
    }
  }

  /** Within one tree every change of tip leaves the chain of the new tip. */
  lemma TipByTip(offset: nat, was: BlockIndex, tip: BlockIndex)
    requires was.Linked() && was.nHeight >= offset && tip.Linked() && tip.nHeight >= offset
    requires was.path[0] == tip.path[0]
    ensures Refilled(offset, Rebuilt(offset, was), tip) == Rebuilt(offset, tip)
  {
    var slots := Rebuilt(offset, was);
    forall i | 0 <= i < |slots| && offset + i < tip.Base()
      ensures slots[i] == null
    {
      assert slots[i] == was.At(offset + i);
    }
    RefillIsRebuild(offset, slots, tip);
  }

  lemma RebuiltOk(offset: nat, tip: BlockIndex)
    requires tip.Linked() && tip.nHeight >= offset
    ensures SlotsOk(offset, Rebuilt(offset, tip))
  {
    var slots := Rebuilt(offset, tip);
    forall i | 0 <= i < |slots|
      ensures SlotOk(offset, slots, i)
    {
      if slots[i] != null {
        tip.StepDown(offset + i);
        tip.PathAt(offset + i - tip.Base());
      }
    }
  }

  lemma RefilledOk(offset: nat, slots: seq<BlockIndex?>, tip: BlockIndex)
    requires SlotsOk(offset, slots) && tip.Linked() && tip.nHeight >= offset
    ensures SlotsOk(offset, Refilled(offset, slots, tip))
  {
    var next := Refilled(offset, slots, tip);
    forall i | 0 <= i < |next|
      ensures SlotOk(offset, next, i)
    {
      if offset + i >= tip.Base() {
        RebuiltOk(offset, tip);
        assert SlotOk(offset, Rebuilt(offset, tip), i);
        tip.PathAt(0);
        assert offset + i == tip.Base() ==> tip.At(offset + i) == tip.path[0];
      } else if i < |slots| {
        assert SlotOk(offset, slots, i);
      }
    }
  }

  /** Below a slot that already holds a block of the path, so do all the others. */
  lemma {:induction false} RestMatches(offset: nat, slots: seq<BlockIndex?>, tip: BlockIndex, k: nat, j: nat)
    requires SlotsOk(offset, slots) && tip.Linked() && k < |slots| && j <= k
    requires tip.Base() <= offset + j && slots[k] != null && slots[k] == tip.At(offset + k)
    ensures slots[j] == tip.At(offset + j)
    decreases k - j
  {
    if j < k {
      RestMatches(offset, slots, tip, k, j + 1);
      assert SlotOk(offset, slots, j + 1);
      tip.PathAt(0);
      tip.StepDown(offset + j + 1);
    }
  }

  lemma ResizedOk(offset: nat, was: seq<BlockIndex?>, resized: seq<BlockIndex?>)
    requires SlotsOk(offset, was) && forall i :: 0 <= i < |resized| ==> resized[i] == Resized(was, i)
    ensures SlotsOk(offset, resized)
  {
    forall i | 0 <= i < |resized|
      ensures SlotOk(offset, resized, i)
    {
      if i < |was| {
        assert SlotOk(offset, was, i);
      }
    }
  }

  ghost predicate WrittenAt(offset: nat, slots: seq<BlockIndex?>, tip: BlockIndex, i: nat)
    requires |tip.path| > 0
  {
    i < |slots| && offset + i >= tip.Base() && slots[i] == tip.At(offset + i)
  }

  /** From a height on, the slots hold the path of the tip. */
  ghost predicate Written(offset: nat, slots: seq<BlockIndex?>, tip: BlockIndex, from: nat)
    requires |tip.path| > 0
  {
    forall i: nat :: from <= i < |slots| ==> WrittenAt(offset, slots, tip, i)
  }

  lemma WriteBelow(offset: nat, slots: seq<BlockIndex?>, tip: BlockIndex, k: nat)
    requires |tip.path| > 0 && k < |slots| && Written(offset, slots, tip, k + 1)
    requires tip.At(offset + k) != null
    ensures Written(offset, slots[k := tip.At(offset + k)], tip, k)
  {
    var next := slots[k := tip.At(offset + k)];
    forall i: nat | k <= i < |next|
      ensures WrittenAt(offset, next, tip, i)
    {
      assert i > k ==> WrittenAt(offset, slots, tip, i);
    }
  }

  lemma RestUntouched(resized: seq<BlockIndex?>, slots: seq<BlockIndex?>, k: nat, b: BlockIndex?)
    requires |resized| == |slots| && k < |slots| && slots[..k + 1] == resized[..k + 1]
    ensures slots[k := b][..k] == resized[..k]
  {
    assert slots[..k] == slots[..k + 1][..k];
    assert resized[..k] == resized[..k + 1][..k];
  }

  /** One step of the descent: a block of the path goes into the next slot down. */
  lemma DescentStep(offset: nat, resized: seq<BlockIndex?>, slots: seq<BlockIndex?>, tip: BlockIndex, k: nat)
    requires Descent(offset, resized, slots, tip, k) && tip.At(offset + k) != null
    ensures tip.At(offset + k).nHeight == offset + k
    ensures Descent(offset, resized, slots[k := tip.At(offset + k)], tip, k - 1)
    ensures tip.At(offset + k).pprev == tip.At(offset + k - 1)
  {
    tip.StepDown(offset + k);
    WriteBelow(offset, slots, tip, k);
    RestUntouched(resized, slots, k, tip.At(offset + k));
  }

  lemma DescentHeight(offset: nat, resized: seq<BlockIndex?>, slots: seq<BlockIndex?>, tip: BlockIndex, k: int)
    requires Descent(offset, resized, slots, tip, k)
    ensures tip.At(offset + k) != null ==> tip.At(offset + k).nHeight == offset + k
  {
    if tip.At(offset + k) != null {
      tip.StepDown(offset + k);
    }
  }

  /** The slots above `k` are written and the rest is as it was after resizing. */
  ghost predicate Descent(offset: nat, resized: seq<BlockIndex?>, slots: seq<BlockIndex?>, tip: BlockIndex, k: int) {
    && tip.Linked() && tip.nHeight >= offset
    && |resized| == |slots| == tip.nHeight - offset + 1 && -1 <= k < |slots|
    && slots[..k + 1] == resized[..k + 1]
    && Written(offset, slots, tip, k + 1)
  }

  /** A descent that wrote the slots above `k` and stopped for one of the three reasons. */
  lemma Settled(offset: nat, was: seq<BlockIndex?>, resized: seq<BlockIndex?>, slots: seq<BlockIndex?>,
                tip: BlockIndex, k: int)
    requires SlotsOk(offset, was) && Descent(offset, resized, slots, tip, k)
    requires forall i :: 0 <= i < |resized| ==> resized[i] == Resized(was, i)
    requires k == -1 || tip.At(offset + k) == null || slots[k] == tip.At(offset + k)
    ensures slots == Refilled(offset, was, tip)
  {
    ResizedOk(offset, was, resized);
    tip.PathAt(0);
    forall i | 0 <= i < |slots|
      ensures slots[i] == Refilled(offset, was, tip)[i]
    {
      if i <= k {
        assert slots[i] == slots[..k + 1][i] == resized[i];
        if offset + i >= tip.Base() {
          assert slots[k] == slots[..k + 1][k] == resized[k];
          RestMatches(offset, resized, tip, k, i);
        }
      } else {
        assert WrittenAt(offset, slots, tip, i);
      }
    }
  }

  class PartialChain {
    const offset: nat
    var vChain: seq<BlockIndex?>

    ghost predicate Valid()
      reads this
    {
      SlotsOk(offset, vChain) && (vChain != [] ==> vChain[|vChain| - 1] != null)
    }

    constructor (offset: nat)
      ensures Valid() && this.offset == offset && vChain == []
    {
      this.offset, vChain := offset, [];
    }

    function Height(): int
      reads this
    {
      |vChain| + offset - 1
    }

    function At(height: int): BlockIndex?
      reads this
    {
      if offset <= height <= Height() then vChain[height - offset] else null
    }

    predicate Contains(b: BlockIndex)
      reads this
    {
      At(b.nHeight) == b
    }

    /** The chain of a tip contains the tip and its ancestors from the offset up, no more. */
    lemma ContainsAncestors(tip: BlockIndex, b: BlockIndex)
      requires tip.Linked() && tip.nHeight >= offset && vChain == Rebuilt(offset, tip)
      ensures Contains(b) <==> b in tip.path && b.nHeight >= offset
    {
      tip.PathAt(0);
      if b in tip.path {
        tip.Reaches(b);
      }
      if Contains(b) {
        assert tip.At(b.nHeight) in tip.path;
      }
    }

    method Resize(n: nat)
      modifies this
      ensures |vChain| == n && forall i :: 0 <= i < n ==> vChain[i] == Resized(old(vChain), i)
    {
      vChain := if n <= |vChain| then vChain[..n] else vChain + seq(n - |vChain|, _ => null);
    }

    /** The walk down from the new tip stops at the first block that is in place. */
    method SetTip(tip: BlockIndex?)
      requires Valid() && (tip != null ==> tip.Linked() && tip.nHeight >= offset)
      modifies this
      ensures Valid()
      ensures vChain == if tip == null then [] else Refilled(offset, old(vChain), tip)
    {
      if tip == null {
        vChain := [];
        return;
      }
      ghost var was := vChain;
      Resize(tip.nHeight - offset + 1);
      ghost var resized := vChain;
      var p: BlockIndex? := tip;
      tip.PathAt(0);
      ghost var k := tip.nHeight - offset;
      while p != null && p.nHeight >= offset && vChain[p.nHeight - offset] != p
        invariant Descent(offset, resized, vChain, tip, k) && p == tip.At(offset + k)
        invariant p != null ==> p.nHeight == offset + k
        decreases k
      {
        DescentStep(offset, resized, vChain, tip, k);
        vChain := vChain[p.nHeight - offset := p];
        p := p.pprev;
        k := k - 1;
        DescentHeight(offset, resized, vChain, tip, k);
      }
      Settled(offset, was, resized, vChain, tip, k);
      RefilledOk(offset, was, tip);
    }

    /** The highest block of this chain on the way from the given block to its root. */
    method FindFork(b: BlockIndex?) returns (r: BlockIndex?)
      requires Valid() && (b != null ==> b.InTree())
      ensures b == null ==> r == null
      ensures b != null && r == null ==> forall c :: c in b.path ==> !Contains(c)
      ensures b != null && r != null ==> r in b.path && Contains(r)
      ensures b != null && r != null ==> forall c :: c in b.path && Contains(c) ==> c.nHeight <= r.nHeight
    {
      if b == null {
        return null;
      }
      r := b;
      ghost var h: int := b.nHeight;
      b.PathAt(0);
      if b.nHeight > Height() {
        r := b.GetAncestor(Height());
        b.WalkIsAt(Height());
        h := Height();
      }
      forall k | h < k <= b.nHeight && b.At(k) != null
        ensures !Contains(b.At(k))
      {
        b.StepDown(k);
      }
      while r != null && !Contains(r)
        invariant h <= b.nHeight && r == b.At(h)
        invariant forall k :: h < k <= b.nHeight && b.At(k) != null ==> !Contains(b.At(k))
        decreases h - b.Base() + 1
      {
        b.StepDown(h);
        r := r.pprev;
        h := h - 1;
      }
      forall c | c in b.path && Contains(c)
        ensures r != null && c.nHeight <= r.nHeight
      {
        b.Reaches(c);
        if r != null {
          b.StepDown(h);
        }
      }
    }
  }

  /** A tip at height 0, and then one of another tree that starts at height 1: the slot
      of the first stays, where a rebuilt chain has none. */
  method LeftOverSlot() returns (first: BlockIndex, second: BlockIndex, slots: seq<BlockIndex?>)
    ensures second.Linked() && second.nHeight == 1
    ensures slots == [first, second] && Rebuilt(0, second) == [null, second]
  {
    first := new BlockIndex(null, 0);
    second := new BlockIndex(null, 1);
    var chain := new PartialChain(0);
    chain.SetTip(first);
    assert chain.vChain == [first];
    chain.SetTip(second);
    slots := chain.vChain;
    assert slots == Refilled(0, [first], second);
    assert second.Base() == 1;
    assert slots[0] == Resized([first], 0) && slots[1] == second.At(1);
  }
}

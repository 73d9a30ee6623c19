/** CPartialMerkleTree as an object: building appends to its bits and hashes, and
    extracting consumes them. */
module MerkleBlock {
  import opened MerkleModel
  import opened Numbers
  import BitPacking

  class PartialMerkleTree {
    const f: PairHash
    var nTransactions: nat
    var vBits: seq<bool>
    var vHash: seq<Hash>
    var fBad: bool

    ghost function State(): PartialTree
      reads this
    {
      PartialTree(nTransactions, Code(vBits, vHash), fBad)
    }

    /** pos < CalcTreeWidth(height), which is to say that the node has a leaf. */
    method BelowWidth(pos: nat, height: nat) returns (below: bool)
      ensures below <==> InTree(nTransactions, height, pos)
    {
      WidthIsInTree(nTransactions, height, pos);
      below := pos < Width(nTransactions, height);
    }

    method CalcTreeHeight() returns (height: nat)
      ensures height == TreeHeight(nTransactions)
    {
      height := 0;
      var more := BelowWidth(1, height);
      while more
        invariant HeightFrom(nTransactions, height) == TreeHeight(nTransactions)
        invariant more <==> InTree(nTransactions, height, 1)
        decreases nTransactions - Low(height, 1)
      {
        LowMonotone(height, 1, 2);
        height := height + 1;
        more := BelowWidth(1, height);
      }
    }

    /** The loop over the leaves below a node. */
    method IsParentOfMatch(height: nat, pos: nat, vMatch: seq<bool>) returns (parent: bool)
      requires |vMatch| == nTransactions && InTree(nTransactions, height, pos)
      ensures parent <==> AnyMatch(vMatch, Low(height, pos), High(nTransactions, height, pos))
    {
      LowIsShift(height, pos);
      LowIsShift(height, pos + 1);
      parent := false;
      var p := pos * Pow2(height);
      while p < (pos + 1) * Pow2(height) && p < nTransactions
        invariant Low(height, pos) <= p <= High(nTransactions, height, pos)
        invariant parent <==> AnyMatch(vMatch, Low(height, pos), p)
      {
        ghost var before := parent;
        assert IsHit(vMatch, p) == vMatch[p];
        if vMatch[p] {
          parent := true;
        }
        p := p + 1;
      }
    }

    method TraverseAndBuild(height: nat, pos: nat, vTxid: seq<Hash>, vMatch: seq<bool>)
      requires |vTxid| == |vMatch| == nTransactions && InTree(nTransactions, height, pos)
      modifies this`vBits, this`vHash
      ensures var part := Build(f, vTxid, vMatch, height, pos);
        vBits == old(vBits) + part.bits && vHash == old(vHash) + part.hashes
      decreases height
    {
      var parent := IsParentOfMatch(height, pos, vMatch);
      vBits := vBits + [parent];
      if height == 0 || !parent {
        vHash := vHash + [CalcHash(f, vTxid, height, pos)];
      } else {
        BuildChildren(height, pos, vTxid, vMatch);
      }
    }

    method BuildChildren(height: nat, pos: nat, vTxid: seq<Hash>, vMatch: seq<bool>)
      requires |vTxid| == |vMatch| == nTransactions && height > 0 && InTree(nTransactions, height, pos)
      modifies this`vBits, this`vHash
      ensures var below := BuildBelow(f, vTxid, vMatch, height, pos);
        vBits == old(vBits) + below.bits && vHash == old(vHash) + below.hashes
      decreases height, 0
    {
      Children(nTransactions, height, pos);
      TraverseAndBuild(height - 1, pos * 2, vTxid, vMatch);
      var below := BelowWidth(pos * 2 + 1, height - 1);
      if below {
        TraverseAndBuild(height - 1, pos * 2 + 1, vTxid, vMatch);
      }
    }

    constructor (f: PairHash, vTxid: seq<Hash>, vMatch: seq<bool>)
      requires |vMatch| == |vTxid| && |vTxid| > 0
      ensures this.f == f && State() == Encode(f, vTxid, vMatch)
    {
      this.f := f;
      nTransactions, fBad := |vTxid|, false;
      vBits, vHash := [], [];
      new;
      var height := CalcTreeHeight();
      WholeTree(nTransactions);
      TraverseAndBuild(height, 0, vTxid, vMatch);
      assert [] + Build(f, vTxid, vMatch, height, 0).bits == Build(f, vTxid, vMatch, height, 0).bits;
      assert [] + Build(f, vTxid, vMatch, height, 0).hashes == Build(f, vTxid, vMatch, height, 0).hashes;
    }

    method TraverseAndExtract(height: nat, pos: nat, bitsIn: nat, hashesIn: nat, foundIn: seq<(Hash, nat)>)
      returns (hash: Hash, bitsUsed: nat, hashesUsed: nat, found: seq<(Hash, nat)>)
      modifies this`fBad
      ensures var e := Extract(f, nTransactions, Code(vBits, vHash), height, pos, bitsIn, hashesIn);
        && hash == e.hash && bitsUsed == e.bitsUsed && hashesUsed == e.hashesUsed
        && found == foundIn + e.found && fBad == (old(fBad) || e.bad)
      decreases height
    {
      bitsUsed, hashesUsed, found := bitsIn, hashesIn, foundIn;
      if bitsUsed >= |vBits| {
        fBad := true;
        return NULL_HASH, bitsUsed, hashesUsed, found;
      }
      var parent := vBits[bitsUsed];
      bitsUsed := bitsUsed + 1;
      if height == 0 || !parent {
        if hashesUsed >= |vHash| {
          fBad := true;
          return NULL_HASH, bitsUsed, hashesUsed, found;
        }
        hash := vHash[hashesUsed];
        hashesUsed := hashesUsed + 1;
        if height == 0 && parent {
          found := found + [(hash, pos)];
        }
      } else {
        hash, bitsUsed, hashesUsed, found := ExtractChildren(height, pos, bitsUsed, hashesUsed, found);
      }
    }

    method ExtractChildren(height: nat, pos: nat, bitsIn: nat, hashesIn: nat, foundIn: seq<(Hash, nat)>)
      returns (hash: Hash, bitsUsed: nat, hashesUsed: nat, found: seq<(Hash, nat)>)
      requires height > 0
      modifies this`fBad
      ensures var e := ExtractBelow(f, nTransactions, Code(vBits, vHash), height, pos, bitsIn, hashesIn);
        && hash == e.hash && bitsUsed == e.bitsUsed && hashesUsed == e.hashesUsed
        && found == foundIn + e.found && fBad == (old(fBad) || e.bad)
      decreases height, 0
    {
      var left, right;
      left, bitsUsed, hashesUsed, found := TraverseAndExtract(height - 1, pos * 2, bitsIn, hashesIn, foundIn);
      var below := BelowWidth(pos * 2 + 1, height - 1);
      if below {
        right, bitsUsed, hashesUsed, found := TraverseAndExtract(height - 1, pos * 2 + 1, bitsUsed, hashesUsed, found);
        if right == left {
          fBad := true;
        }
      } else {
        right := left;
      }
      hash := f(left, right);
    }

    method ExtractMatches() returns (root: Hash, found: seq<(Hash, nat)>)
      modifies this`fBad
      ensures (root, found) == MerkleModel.ExtractMatches(f, old(State()))
    {
      found := [];
      if nTransactions == 0 || nTransactions > MAX_BLOCK_BASE_SIZE / 60 {
        return NULL_HASH, found;
      }
      if |vHash| > nTransactions || |vBits| < |vHash| {
        return NULL_HASH, found;
      }
      var height := CalcTreeHeight();
      var bitsUsed, hashesUsed;
      ghost var e := Traversed(f, State());
      root, bitsUsed, hashesUsed, found := TraverseAndExtract(height, 0, 0, 0, []);
      assert found == e.found;
      if fBad || (bitsUsed + 7) / 8 != (|vBits| + 7) / 8 || hashesUsed != |vHash| {
        root := NULL_HASH;
      }
    }

    /** The two directions of the serialization; only the flag bits change form. */
    method WriteBits() returns (vBytes: seq<bv8>)
      ensures BitPacking.Packed(vBytes, BitPacking.Padded(vBits)) && |vBytes| == (|vBits| + 7) / 8
    {
      vBytes := BitPacking.Pack(vBits);
    }

    method ReadBits(vBytes: seq<bv8>)
      modifies this`vBits, this`fBad
      ensures |vBits| == 8 * |vBytes| && BitPacking.Packed(vBytes, vBits) && !fBad
    {
      vBits := BitPacking.Unpack(vBytes);
      fBad := false;
    }
  }

  /** Building, writing, reading back and extracting returns the true root and exactly
      the matched transactions, with their indices and in order. */
  method BuildSendExtract(f: PairHash, vTxid: seq<Hash>, vMatch: seq<bool>)
    returns (root: Hash, found: seq<(Hash, nat)>)
    requires |vMatch| == |vTxid| && 0 < |vTxid| <= MAX_BLOCK_BASE_SIZE / 60
    requires CollisionFree(f) && Distinct(vTxid)
    ensures root == MerkleRoot(f, vTxid) && found == MatchedIn(vTxid, vMatch, 0, |vTxid|)
  {
    var tree := new PartialMerkleTree(f, vTxid, vMatch);
    ghost var bits := tree.vBits;
    var bytes := tree.WriteBits();
    tree.ReadBits(bytes);
    BitPacking.PackedUnique(bytes, tree.vBits, BitPacking.Padded(bits));
    ghost var padding := tree.vBits[|bits|..];
    assert tree.vBits == bits + padding;
    RoundTripDistinct(f, vTxid, vMatch, padding);
    root, found := tree.ExtractMatches();
  }
}

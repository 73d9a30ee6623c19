/** Compact targets computed on words, and the work a target stands for. */
module Compact {
  import opened Numbers
  import opened Words
  import opened ArithUint
  import opened CompactModel

  method SetCompact(x: BaseUint, c: nat) returns (negative: bool, overflow: bool)
    requires x.Valid() && x.pn.Length == 8 && c < B
    modifies x.pn
    ensures x.Valid() && Target(x.Value(), negative, overflow) == Decode(c)
  {
    var size, word := c / SIZE, c % SIGN;
    if size <= 3 {
      HighBitsAtMost(word, 8 * (3 - size));
      word := HighBits(word, 8 * (3 - size));
      x.Assign(word);
    } else {
      x.Assign(word);
      x.ShiftLeft(8 * (size - 3));
    }
    negative := word != 0 && (c / SIGN) % 2 == 1;
    overflow := word != 0 && (size > 34 || (word > 0xff && size > 33) || (word > 0xffff && size > 32));
  }

  /** The three top bytes, from the low words or after a shift. */
  method TakeTop(x: BaseUint, bytes: nat) returns (top: nat)
    requires x.Valid() && x.pn.Length == 8 && bytes == (BitLength(x.Value()) + 7) / 8
    ensures top == TopBytes(x.Value(), bytes) < SIZE
  {
    MantissaByBytes(x.Value(), bytes, TopBytes(x.Value(), bytes));
    if bytes <= 3 {
      top := x.Low64();
      SmallIsLow(x.Value(), bytes);
      top := top * Pow2(8 * (3 - bytes));
    } else {
      var bn := new BaseUint.Copy(x);
      bn.ShiftRight(8 * (bytes - 3));
      top := bn.Low64();
      DivModIs(bn.Value(), B * B, 0, bn.Value());
    }
  }

  lemma SmallIsLow(v: nat, bytes: nat)
    requires bytes <= 3 && bytes == (BitLength(v) + 7) / 8
    ensures v % (B * B) == v
  {
    BitLengthIs(v, BitLength(v));
    Pow2Monotone(BitLength(v), 24);
    SmallPowers();
    DivModIs(v, B * B, 0, v);
  }

  lemma JoinSize(word: nat, size: nat)
    requires word < SIGN
    ensures Or(word, size * SIZE) == word + size * SIZE
  {
    SmallPowers();
    MultipleIsClear(size, 24);
    OrDisjoint(24, word, size * SIZE);
  }

  lemma JoinSign(word: nat, size: nat)
    requires word < SIGN
    ensures Or(word + size * SIZE, SIGN) == word + size * SIZE + SIGN
  {
    SmallPowers();
    BitsAre(word + size * SIZE, 23, 2 * size, word);
    OrBit(23, word + size * SIZE);
  }

  /** Size, mantissa and sign put together. */
  method Join(word: nat, size: nat, negative: bool) returns (c: nat)
    requires word < SIGN
    ensures c == word + (if negative && word != 0 then SIGN else 0) + size * SIZE
  {
    JoinSize(word, size);
    c := Or(word, size * SIZE);
    if negative && c % SIGN != 0 {
      JoinSign(word, size);
      c := Or(c, SIGN);
    }
  }

  method Bytes(x: BaseUint) returns (n: nat)
    requires x.Valid() && x.pn.Length == 8
    ensures n == (BitLength(x.Value()) + 7) / 8 && n <= 32
  {
    n := x.Bits();
    BitLengthIs(x.Value(), n);
    n := (n + 7) / 8;
  }

  method GetCompact(x: BaseUint, negative: bool) returns (c: nat)
    requires x.Valid() && x.pn.Length == 8
    ensures c == Encode(x.Value(), negative) && c < B
  {
    var size := Bytes(x);
    var word := TakeTop(x, size);
    MantissaByBytes(x.Value(), size, word);
    if (word / SIGN) % 2 == 1 {
      word := word / 0x100;
      size := size + 1;
    }
    assert word < SIGN && size < 256;
    c := Join(word, size, negative);
  }

  // ----- work

  /** The expected number of hashes to meet a target. */
  function BlockProof(c: nat): nat {
    var t := Decode(c);
    if t.negative || t.overflow || t.value == 0 then 0 else Quotient(LIMIT, t.value + 1)
  }

  /** A target that fits leaves room for one more. */
  lemma TargetBelow(c: nat)
    requires !Decode(c).overflow
    ensures Decode(c).value + 1 < LIMIT
  {
    OverflowIff(c);
    if CompactSize(c) <= 3 {
      WordBelow(c);
    } else {
      var e := 8 * (CompactSize(c) - 3);
      EvenProduct(CompactWord(c), e);
      assert LIMIT % 2 == 0;
    }
  }

  lemma EvenProduct(word: nat, e: nat)
    requires e > 0
    ensures (word * Pow2(e)) % 2 == 0
  {
    assert word * Pow2(e) == 2 * (word * Pow2(e - 1));
  }

  /** The quotient of a number one too large for the words, from one that fits. */
  lemma ProofFromComplement(limit: nat, t: nat)
    requires 1 <= t && t + 1 < limit
    ensures (limit - 1 - t) / (t + 1) + 1 == limit / (t + 1) < limit
  {
    var d := t + 1;
    var q, r := (limit - d) / d, (limit - d) % d;
    assert (q + 1) * d == q * d + d;
    DivModIs(limit, d, q + 1, r);
    MulMonotone(2, d, q + 1);
  }

  method GetBlockProof(c: nat) returns (r: BaseUint)
    requires c < B
    ensures fresh(r) && r.Valid() && r.Value() == BlockProof(c)
  {
    var target := new BaseUint(8);
    var negative, overflow := SetCompact(target, c);
    var zero := target.EqualTo(0);
    if negative || overflow || zero {
      r := new BaseUint(8);
      return;
    }
    TargetBelow(c);
    r := WorkOf(target);
  }

  /** The work of a target that is not zero. */
  method WorkOf(target: BaseUint) returns (r: BaseUint)
    requires target.Valid() && target.pn.Length >= 2
    requires 1 <= target.Value() && target.Value() + 1 < target.Size()
    ensures fresh(r) && r.Valid() && r.Value() == target.Size() / (target.Value() + 1)
  {
    ghost var t, limit := target.Value(), target.Size();
    ProofFromComplement(limit, t);
    var one := new BaseUint(target.pn.Length);
    one.Assign(1);
    var next := new BaseUint.Copy(target);
    DivModIs(t + 1, limit, 0, t + 1);
    next.AddWith(one);
    r := target.Not();
    var ok := r.DivWith(next);
    DivModIs(limit / (t + 1), limit, 0, limit / (t + 1));
    r.AddWith(one);
  }
}

/** The compact form of 256-bit targets: a byte count and a 23-bit mantissa with a sign. */
module CompactModel {
  import opened Numbers
  import opened Words

  const SIGN: nat := 0x80_0000
  const SIZE: nat := 0x100_0000

  /** One more than the largest number of eight words. */
  const LIMIT: nat := Mod(8)

  lemma LimitIs(bits: nat)
    requires bits == 256
    ensures LIMIT == Pow2(bits)
  {
    ModIsPow(bits / 32);
  }

  datatype Target = Target(value: nat, negative: bool, overflow: bool)

  // ----- the number a compact form stands for

  function CompactSize(c: nat): nat {
    c / SIZE
  }

  function CompactWord(c: nat): nat {
    if CompactSize(c) <= 3 then HighBits(c % SIGN, 8 * (3 - CompactSize(c))) else c % SIGN
  }

  function CompactValue(c: nat): nat {
    if CompactSize(c) <= 3 then CompactWord(c)
    else (CompactWord(c) * Pow2(8 * (CompactSize(c) - 3))) % LIMIT
  }

  function Decode(c: nat): Target {
    var size, word := CompactSize(c), CompactWord(c);
    Target(CompactValue(c),
           word != 0 && (c / SIGN) % 2 == 1,
           word != 0 && (size > 34 || (word > 0xff && size > 33) || (word > 0xffff && size > 32)))
  }

  /** The number without the limit of 256 bits. */
  function Unbounded(c: nat): nat {
    if CompactSize(c) <= 3 then CompactWord(c) else CompactWord(c) * Pow2(8 * (CompactSize(c) - 3))
  }

  lemma TimesPow(word: nat, a: nat, b: nat)
    ensures word * Pow2(b) >= Pow2(a + b) <==> word >= Pow2(a)
  {
    Pow2Add(a, b);
    if word >= Pow2(a) {
      MulMonotone(Pow2(a), word, Pow2(b));
    } else {
      MulMonotone(word + 1, Pow2(a), Pow2(b));
      assert (word + 1) * Pow2(b) == word * Pow2(b) + Pow2(b);
    }
  }

  lemma SmallPowers()
    ensures Pow2(7) == 0x80 && Pow2(8) == 0x100 && Pow2(15) == 0x8000 && Pow2(16) == 0x1_0000
    ensures Pow2(23) == SIGN && Pow2(24) == SIZE
  {
    assert Pow2(7) == 0x80;
    Pow2Add(8, 8);
    Pow2Add(7, 8);
    Pow2Add(16, 7);
    Pow2Add(16, 8);
  }

  /** The overflow flag is set exactly when the number does not fit 256 bits; a number
      without the flag is what the mantissa and size say. */
  lemma OverflowIff(c: nat)
    ensures Decode(c).overflow <==> Unbounded(c) >= LIMIT
    ensures !Decode(c).overflow ==> Decode(c).value == Unbounded(c)
  {
    var size, word := CompactSize(c), CompactWord(c);
    SmallPowers();
    if size <= 3 {
      WordBelow(c);
      LimitIs(256);
      Pow2Monotone(23, 256);
    } else {
      WordBelow(c);
      FlagIff(word, size);
    }
    if Unbounded(c) < LIMIT {
      DivModIs(Unbounded(c), LIMIT, 0, Unbounded(c));
    }
  }

  lemma WordBelow(c: nat)
    ensures CompactWord(c) < SIGN
  {
    if CompactSize(c) <= 3 {
      HighBitsAtMost(c % SIGN, 8 * (3 - CompactSize(c)));
    }
  }

  lemma FlagIff(word: nat, size: nat)
    requires size > 3 && word < SIGN
    ensures word != 0 && (size > 34 || (word > 0xff && size > 33) || (word > 0xffff && size > 32))
       <==> word * Pow2(8 * (size - 3)) >= LIMIT
  {
    SmallPowers();
    var e, bits := 8 * (size - 3), 256;
    LimitIs(bits);
    if size > 34 {
      FarTooLarge(word, e, bits);
    } else if size > 32 {
      TimesPow(word, bits - e, e);
    } else {
      TimesPow(word, 23, e);
      Pow2Monotone(23 + e, bits);
    }
  }

  lemma FarTooLarge(word: nat, e: nat, bits: nat)
    requires e >= bits
    ensures word * Pow2(e) >= Pow2(bits) <==> word != 0
  {
    Pow2Monotone(bits, e);
    if word != 0 {
      MulMonotone(1, word, Pow2(e));
    }
  }

  // ----- the compact form of a number

  function BitLength(v: nat): nat {
    if v == 0 then 0 else 1 + BitLength(v / 2)
  }

  lemma {:induction false} BitLengthIs(v: nat, n: nat)
    ensures BitLength(v) == n <==> v < Pow2(n) && (n > 0 ==> v >= Pow2(n - 1))
  {
    if v > 0 && n > 0 {
      BitLengthIs(v / 2, n - 1);
    }
  }

  /** Bytes of a number together with its sign bit. */
  function ByteCount(v: nat): nat {
    if v == 0 then 0 else BitLength(v) / 8 + 1
  }

  /** The three top bytes of a number of so many bytes. */
  function TopBytes(v: nat, bytes: nat): nat {
    if bytes <= 3 then v * Pow2(8 * (3 - bytes)) else HighBits(v, 8 * (bytes - 3))
  }

  function Mantissa(v: nat): nat {
    TopBytes(v, ByteCount(v))
  }

  lemma TopBytesBelow(v: nat, bytes: nat, bits: nat)
    requires bits + 8 * bytes >= 24
    ensures TopBytes(v, bytes) < Pow2(bits) <==> v < Pow2(bits + 8 * bytes - 24)
  {
    if bytes <= 3 {
      TimesPow(v, bits + 8 * bytes - 24, 8 * (3 - bytes));
    } else {
      HighBitsBelow(v, bits, 8 * (bytes - 3));
    }
  }

  lemma OneByteMore(v: nat, bytes: nat)
    ensures TopBytes(v, bytes) / 0x100 == TopBytes(v, bytes + 1)
  {
    if bytes < 3 {
      ByteLess(v, 8 * (2 - bytes));
    } else {
      HighBitsTwice(v, 8 * (bytes - 3), 8);
      HighByte(TopBytes(v, bytes));
    }
  }

  lemma HighByte(x: nat)
    ensures HighBits(x, 8) == x / 0x100
  {
    BitsDivide(x, 8);
    SmallPowers();
  }

  lemma ByteLess(v: nat, e: nat)
    ensures v * Pow2(e + 8) / 0x100 == v * Pow2(e)
  {
    Pow2Add(e, 8);
    SmallPowers();
    assert v * Pow2(e + 8) == (v * Pow2(e)) * 0x100;
  }

  function Encode(v: nat, negative: bool): nat {
    Mantissa(v) + (if negative && Mantissa(v) != 0 then SIGN else 0) + ByteCount(v) * SIZE
  }

  /** The weight of the lowest bit of the mantissa, for numbers of more than three bytes. */
  function Unit(v: nat): nat {
    if ByteCount(v) <= 3 then 1 else Pow2(8 * (ByteCount(v) - 3))
  }

  /** The number without what is below that weight. */
  function Kept(v: nat): nat {
    if ByteCount(v) <= 3 then v else Mantissa(v) * Unit(v)
  }

  lemma KeptBounds(v: nat)
    ensures Kept(v) <= v < Kept(v) + Unit(v)
  {
    if ByteCount(v) > 3 {
      BitsSplit(v, 8 * (ByteCount(v) - 3));
    }
  }

  lemma ByteRange(v: nat)
    requires v > 0
    ensures v < Pow2(8 * ByteCount(v) - 1)
    ensures ByteCount(v) > 1 ==> v >= Pow2(8 * ByteCount(v) - 9)
  {
    var b, n := BitLength(v), ByteCount(v);
    BitLengthIs(v, b);
    Pow2Monotone(b, 8 * n - 1);
    if n > 1 {
      Pow2Monotone(8 * n - 9, b - 1);
    }
  }

  /** The mantissa has at most 23 bits, and at least 15 of any number it cannot hold. */
  lemma MantissaRange(v: nat)
    requires v > 0
    ensures 0 < Mantissa(v) < SIGN
    ensures ByteCount(v) > 3 ==> Mantissa(v) >= Pow2(15)
  {
    var n := ByteCount(v);
    ByteRange(v);
    SmallPowers();
    TopBytesBelow(v, n, 23);
    if n > 3 {
      TopBytesBelow(v, n, 15);
    } else {
      MulMonotone(1, Pow2(8 * (3 - n)), v);
    }
  }

  lemma FieldsOf(m: nat, n: nat, sign: bool, c: nat)
    requires m < SIGN && c == m + (if sign then SIGN else 0) + n * SIZE
    ensures c / SIZE == n && c % SIGN == m && ((c / SIGN) % 2 == 1 <==> sign)
  {
  }

  lemma Fields(v: nat, negative: bool)
    ensures CompactSize(Encode(v, negative)) == ByteCount(v) && Encode(v, negative) % SIGN == Mantissa(v)
    ensures (Encode(v, negative) / SIGN) % 2 == 1 <==> negative && Mantissa(v) != 0
  {
    if v > 0 {
      MantissaRange(v);
    }
    FieldsOf(Mantissa(v), ByteCount(v), negative && Mantissa(v) != 0, Encode(v, negative));
  }

  lemma HighBitsOfProduct(v: nat, e: nat)
    ensures HighBits(v * Pow2(e), e) == v
  {
    BitsAre(v * Pow2(e), e, v, 0);
  }

  lemma Truncates(v: nat, negative: bool)
    ensures Unbounded(Encode(v, negative)) == Kept(v)
    ensures CompactWord(Encode(v, negative)) != 0 <==> v != 0
  {
    var c, n := Encode(v, negative), ByteCount(v);
    Fields(v, negative);
    if n <= 3 {
      HighBitsOfProduct(v, 8 * (3 - n));
      assert CompactWord(c) == HighBits(Mantissa(v), 8 * (3 - n));
    } else {
      MantissaRange(v);
      assert CompactWord(c) == Mantissa(v);
    }
  }

  lemma SignIsKept(v: nat)
    ensures Mantissa(v) != 0 <==> v != 0
  {
    if v != 0 {
      MantissaRange(v);
    }
  }

  /** Writing a number in compact form and reading it back keeps its sign, never
      overflows, and only loses what is below the weight of its mantissa's lowest bit. */
  lemma RoundTrip(v: nat, negative: bool)
    requires v < LIMIT
    ensures Decode(Encode(v, negative)) == Target(Kept(v), negative && v != 0, false)
  {
    Fields(v, negative);
    SignIsKept(v);
    Truncates(v, negative);
    KeptBounds(v);
    OverflowIff(Encode(v, negative));
  }

  /** The loss is less than one part in two to the fifteenth. */
  lemma Precision(v: nat)
    requires v > 0
    ensures (v - Kept(v)) * Pow2(15) < Kept(v) <= v
  {
    KeptBounds(v);
    if ByteCount(v) > 3 {
      MantissaRange(v);
      SmallRest(v - Kept(v), Unit(v), Pow2(15), Mantissa(v));
    }
  }

  lemma SmallRest(r: nat, u: nat, p: nat, q: nat)
    requires r < u && p <= q && p > 0
    ensures r * p < q * u
  {
    MulMonotone(r + 1, u, p);
    assert (r + 1) * p == r * p + p;
    MulMonotone(p, q, u);
  }

  lemma SameLength(v: nat)
    ensures BitLength(Kept(v)) == BitLength(v)
  {
    var b, n := BitLength(v), ByteCount(v);
    if n > 3 {
      var e := 8 * (n - 3);
      BitLengthIs(v, b);
      KeptBounds(v);
      HighBitsBelow(v, b - 1 - e, e);
      TimesPow(Mantissa(v), b - 1 - e, e);
      BitLengthIs(Kept(v), b);
    }
  }

  /** A number and what its compact form keeps of it have the same compact form. */
  lemma Canonical(v: nat, negative: bool)
    ensures Encode(Kept(v), negative) == Encode(v, negative)
  {
    var n := ByteCount(v);
    SameLength(v);
    if n > 3 {
      BitLengthIs(Kept(v), BitLength(v));
      SameMantissa(v);
    }
  }

  lemma SameMantissa(v: nat)
    requires ByteCount(v) > 3 && ByteCount(Kept(v)) == ByteCount(v)
    ensures Mantissa(Kept(v)) == Mantissa(v)
  {
    HighBitsOfProduct(Mantissa(v), 8 * (ByteCount(v) - 3));
  }

  // ----- the form as the code computes it

  /** Bytes without a sign bit, the three top bytes, and one more byte when the sign
      bit is taken: the result is the same. */
  lemma MantissaByBytes(v: nat, bytes: nat, top: nat)
    requires bytes == (BitLength(v) + 7) / 8 && top == TopBytes(v, bytes)
    ensures top < SIZE
    ensures top >= SIGN ==> top / 0x100 == Mantissa(v) && bytes + 1 == ByteCount(v)
    ensures top < SIGN ==> top == Mantissa(v) && bytes == ByteCount(v)
  {
    if v > 0 {
      if BitLength(v) == 8 * bytes {
        SignTaken(v, bytes);
        OneByteMore(v, bytes);
      } else {
        MantissaRange(v);
      }
    }
  }

  lemma SignTaken(v: nat, bytes: nat)
    requires v > 0 && BitLength(v) == 8 * bytes
    ensures SIGN <= TopBytes(v, bytes) < SIZE
  {
    BitLengthIs(v, 8 * bytes);
    SmallPowers();
    TopBytesBelow(v, bytes, 24);
    TopBytesBelow(v, bytes, 23);
  }
}

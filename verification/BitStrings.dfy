/** Numbers as bit strings with the most significant bit first, and bytes as eight bits. */
module BitStrings {
  import opened Numbers

  /** The lowest n bits of a number. */
  function BitsOf(x: nat, n: nat): (r: seq<bool>)
    ensures |r| == n
  {
    if n == 0 then [] else BitsOf(x / 2, n - 1) + [x % 2 == 1]
  }

  function NumberOf(bits: seq<bool>): nat {
    if bits == [] then 0 else 2 * NumberOf(bits[..|bits| - 1]) + if bits[|bits| - 1] then 1 else 0
  }

  lemma {:induction false} NumberOfBits(x: nat, n: nat)
    ensures NumberOf(BitsOf(x, n)) == LowBits(x, n)
  {
    if n > 0 {
      NumberOfBits(x / 2, n - 1);
      assert BitsOf(x, n)[..n - 1] == BitsOf(x / 2, n - 1);
    }
  }

  /** A bit string cut in two. */
  lemma {:induction false} BitsCut(x: nat, a: nat, b: nat)
    ensures BitsOf(x, a + b) == BitsOf(HighBits(x, b), a) + BitsOf(x, b)
  {
    if b > 0 {
      BitsCut(x / 2, a, b - 1);
      assert BitsOf(x, a + b) == BitsOf(x / 2, a + b - 1) + [x % 2 == 1];
    }
  }

  lemma {:induction false} BitsOfLow(x: nat, n: nat, m: nat)
    requires n <= m
    ensures BitsOf(LowBits(x, m), n) == BitsOf(x, n)
  {
    if n > 0 {
      BitsOfLow(x / 2, n - 1, m - 1);
      assert LowBits(x, m) / 2 == LowBits(x / 2, m - 1) && LowBits(x, m) % 2 == x % 2;
    }
  }

  /** A number from its two parts. */
  lemma BitsJoin(hi: nat, lo: nat, a: nat, b: nat)
    requires lo < Pow2(b)
    ensures BitsOf(hi * Pow2(b) + lo, a + b) == BitsOf(hi, a) + BitsOf(lo, b)
  {
    var x := hi * Pow2(b) + lo;
    BitsAre(x, b, hi, lo);
    BitsCut(x, a, b);
    BitsOfLow(x, b, b);
  }

  function BytesBits(bytes: seq<nat>): seq<bool> {
    if bytes == [] then [] else BitsOf(bytes[0], 8) + BytesBits(bytes[1..])
  }

  lemma {:induction false} BytesBitsSnoc(bytes: seq<nat>, b: nat)
    ensures BytesBits(bytes + [b]) == BytesBits(bytes) + BitsOf(b, 8)
  {
    if bytes == [] {
      assert [b][1..] == [];
    } else {
      BytesBitsSnoc(bytes[1..], b);
      assert (bytes + [b])[1..] == bytes[1..] + [b];
    }
  }

  lemma {:induction false} BytesBitsLength(bytes: seq<nat>)
    ensures |BytesBits(bytes)| == 8 * |bytes|
  {
    if bytes != [] {
      BytesBitsLength(bytes[1..]);
    }
  }

  function Repeat(b: bool, n: nat): seq<bool> {
    seq(n, _ => b)
  }

  lemma {:induction false} ZeroBits(n: nat)
    ensures BitsOf(0, n) == Repeat(false, n)
  {
    if n > 0 {
      ZeroBits(n - 1);
    }
  }

  /** The lowest bits of a number with all bits set. */
  lemma {:induction false} OneBits(n: nat, m: nat)
    requires n <= m
    ensures BitsOf(Pow2(m) - 1, n) == Repeat(true, n)
  {
    if n > 0 {
      OneBits(n - 1, m - 1);
      var p := Pow2(m - 1);
      assert (2 * p - 1) / 2 == p - 1 && (2 * p - 1) % 2 == 1;
    }
  }

  lemma {:induction false} NumberJoin(a: seq<bool>, b: seq<bool>)
    ensures NumberOf(a + b) == NumberOf(a) * Pow2(|b|) + NumberOf(b)
  {
    if b == [] {
      assert a + b == a;
    } else {
      var c := b[..|b| - 1];
      NumberJoin(a, c);
      assert (a + b)[..|a + b| - 1] == a + c;
      assert NumberOf(a) * Pow2(|b|) == 2 * (NumberOf(a) * Pow2(|c|));
    }
  }

  /** The first bit of n is the one worth the most. */
  lemma {:induction false} BitAt(x: nat, n: nat, k: nat)
    requires k < n
    ensures BitsOf(x, n)[k] <==> x / Pow2(n - 1 - k) % 2 == 1
  {
    HighBitAt(x, n, k);
    BitsDivide(x, n - 1 - k);
  }

  lemma {:induction false} HighBitAt(x: nat, n: nat, k: nat)
    requires k < n
    ensures BitsOf(x, n)[k] <==> HighBits(x, n - 1 - k) % 2 == 1
  {
    if k < n - 1 {
      HighBitAt(x / 2, n - 1, k);
    }
  }

  /** Bytes are read from their highest bit down. */
  lemma {:induction false} ByteBitAt(bytes: seq<nat>, i: nat, k: nat)
    requires i < |bytes| && k < 8
    ensures 8 * i + k < |BytesBits(bytes)|
    ensures BytesBits(bytes)[8 * i + k] <==> bytes[i] / Pow2(7 - k) % 2 == 1
  {
    BytesBitsLength(bytes);
    if i == 0 {
      BitAt(bytes[0], 8, k);
    } else {
      ByteBitAt(bytes[1..], i - 1, k);
      assert BytesBits(bytes)[8 * i + k] == BytesBits(bytes[1..])[8 * (i - 1) + k];
    }
  }
}

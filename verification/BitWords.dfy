/** Bitwise operations on 64-bit words, bit by bit. */
module BitWords {
  import opened Numbers

  const WORD: nat := 0x1_0000_0000_0000_0000

  predicate Bit(x: nat, k: nat) {
    HighBits(x, k) % 2 == 1
  }

  function Xor(a: nat, b: nat): nat {
    if a == 0 then b
    else if b == 0 then a
    else 2 * Xor(a / 2, b / 2) + if a % 2 != b % 2 then 1 else 0
  }

  lemma {:induction false} ZeroBit(k: nat)
    ensures !Bit(0, k)
  {
    if k > 0 {
      ZeroBit(k - 1);
    }
  }

  lemma {:induction false} AndBit(a: nat, b: nat, k: nat)
    ensures Bit(And(a, b), k) <==> Bit(a, k) && Bit(b, k)
  {
    if a == 0 || b == 0 {
      ZeroBit(k);
    } else if k > 0 {
      AndBit(a / 2, b / 2, k - 1);
      assert And(a, b) / 2 == And(a / 2, b / 2);
    }
  }

  lemma {:induction false} OrOfBits(a: nat, b: nat, k: nat)
    ensures Bit(Or(a, b), k) <==> Bit(a, k) || Bit(b, k)
  {
    if a == 0 || b == 0 {
      ZeroBit(k);
    } else if k > 0 {
      OrOfBits(a / 2, b / 2, k - 1);
      assert Or(a, b) / 2 == Or(a / 2, b / 2);
    }
  }

  lemma {:induction false} XorBit(a: nat, b: nat, k: nat)
    ensures Bit(Xor(a, b), k) <==> Bit(a, k) != Bit(b, k)
  {
    if a == 0 || b == 0 {
      ZeroBit(k);
    } else if k > 0 {
      XorBit(a / 2, b / 2, k - 1);
      assert Xor(a, b) / 2 == Xor(a / 2, b / 2);
    }
  }

  lemma {:induction false} PowBit(n: nat, k: nat)
    ensures Bit(Pow2(n), k) <==> k == n
  {
    if k > 0 {
      if n == 0 {
        ZeroBit(k - 1);
      } else {
        PowBit(n - 1, k - 1);
      }
    }
  }

  /** All bits below a position. */
  lemma {:induction false} FullBit(n: nat, k: nat)
    ensures Bit(Pow2(n) - 1, k) <==> k < n
  {
    if n == 0 {
      ZeroBit(k);
    } else if k > 0 {
      FullBit(n - 1, k - 1);
      assert (Pow2(n) - 1) / 2 == Pow2(n - 1) - 1;
    }
  }

  lemma {:induction false} ComplementBit(n: nat, x: nat, k: nat)
    requires x < Pow2(n)
    ensures Bit(Pow2(n) - 1 - x, k) <==> k < n && !Bit(x, k)
  {
    if n == 0 {
      ZeroBit(k);
    } else if k > 0 {
      ComplementBit(n - 1, x / 2, k - 1);
      var p := Pow2(n - 1);
      assert (2 * p - 1 - x) / 2 == p - 1 - x / 2;
    }
  }
}

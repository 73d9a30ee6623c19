/** Naturals as bit strings, and the few facts about products the proofs share. */
module Numbers {

  function Min(x: int, y: int): int {
    if x < y then x else y
  }

  function Max(x: int, y: int): int {
    if x < y then y else x
  }

  function Pow2(n: nat): (r: nat)
    ensures r >= 1
  {
    if n == 0 then 1 else 2 * Pow2(n - 1)
  }

  lemma {:induction false} Pow2Add(a: nat, b: nat)
    ensures Pow2(a + b) == Pow2(a) * Pow2(b)
  {
    if a > 0 {
      Pow2Add(a - 1, b);
      assert Pow2(a + b) == 2 * (Pow2(a - 1) * Pow2(b));
    }
  }

  lemma {:induction false} Pow2Monotone(a: nat, b: nat)
    requires a <= b
    ensures Pow2(a) <= Pow2(b)
  {
    if a < b {
      Pow2Monotone(a, b - 1);
    }
  }

  lemma Power32(n: nat)
    requires n == 32
    ensures Pow2(n) == 0x1_0000_0000
  {
    var h := n / 2;
    assert Pow2(8) == 256;
    Pow2Add(8, 8);
    Pow2Add(h, h);
  }

  lemma Power64(n: nat)
    requires n == 64
    ensures Pow2(n) == 0x1_0000_0000_0000_0000
  {
    var h := n / 2;
    Power32(h);
    Pow2Add(h, h);
  }

  lemma MulMonotone(a: nat, b: nat, c: nat)
    requires a <= b
    ensures a * c <= b * c
  {
  }

  /** A product as a sum, for proofs that need it only as a whole. */
  function Product(a: nat, b: nat): nat {
    if b == 0 then 0 else a + Product(a, b - 1)
  }

  lemma {:induction false} ProductIs(a: nat, b: nat)
    ensures Product(a, b) == a * b
  {
    if b > 0 {
      ProductIs(a, b - 1);
    }
  }

  lemma TimesAtLeast(d: int, m: nat)
    ensures d >= 1 ==> d * m >= m
    ensures d <= -1 ==> d * m <= 0 - m
  {
    if d >= 1 {
      MulMonotone(1, d, m);
    } else if d <= -1 {
      MulMonotone(1, 0 - d, m);
    }
  }

  /** A quotient and remainder are known by what they add up to. */
  lemma DivModIs(x: int, m: nat, q: int, r: nat)
    requires m > 0 && x == q * m + r && r < m
    ensures x / m == q && x % m == r
  {
    var d := x / m - q;
    assert d * m == (x / m) * m - q * m;
    TimesAtLeast(d, m);
  }

  function Quotient(x: nat, m: nat): nat
    requires m > 0
  {
    x / m
  }

  /** The bits from a position up. */
  function HighBits(x: nat, s: nat): nat {
    if s == 0 then x else HighBits(x / 2, s - 1)
  }

  /** The bits below a position. */
  function LowBits(x: nat, s: nat): nat {
    if s == 0 then 0 else x % 2 + 2 * LowBits(x / 2, s - 1)
  }

  lemma {:induction false} BitsSplit(x: nat, s: nat)
    ensures x == HighBits(x, s) * Pow2(s) + LowBits(x, s) && LowBits(x, s) < Pow2(s)
  {
    if s > 0 {
      BitsSplit(x / 2, s - 1);
      assert HighBits(x, s) * Pow2(s) == 2 * (HighBits(x / 2, s - 1) * Pow2(s - 1));
    }
  }

  /** They are the quotient and the remainder by a power of two. */
  lemma BitsDivide(x: nat, s: nat)
    ensures x / Pow2(s) == HighBits(x, s) && x % Pow2(s) == LowBits(x, s)
  {
    BitsSplit(x, s);
    DivModIs(x, Pow2(s), HighBits(x, s), LowBits(x, s));
  }

  lemma BitsAre(x: nat, s: nat, q: nat, r: nat)
    requires x == q * Pow2(s) + r && r < Pow2(s)
    ensures HighBits(x, s) == q && LowBits(x, s) == r
  {
    BitsSplit(x, s);
    SamePair(Pow2(s), q, r, HighBits(x, s), LowBits(x, s));
  }

  lemma SamePair(m: nat, q: nat, r: nat, q1: nat, r1: nat)
    requires q * m + r == q1 * m + r1 && r < m && r1 < m
    ensures q == q1 && r == r1
  {
    assert (q - q1) * m == q * m - q1 * m;
    TimesAtLeast(q - q1, m);
  }

  lemma {:induction false} LowBitsOfSum(y: nat, z: nat, n: nat, s: nat)
    requires s <= n
    ensures LowBits(y + Pow2(n) * z, s) == LowBits(y, s)
  {
    if s > 0 {
      var t := Pow2(n - 1) * z;
      assert Pow2(n) * z == 2 * t;
      LowBitsOfSum(y / 2, z, n - 1, s - 1);
      assert (y + 2 * t) / 2 == y / 2 + t && (y + 2 * t) % 2 == y % 2;
    }
  }

  lemma {:induction false} HighBitsTwice(x: nat, a: nat, b: nat)
    ensures HighBits(HighBits(x, a), b) == HighBits(x, a + b)
  {
    if a > 0 {
      HighBitsTwice(x / 2, a - 1, b);
    }
  }

  lemma {:induction false} HighBitsAtMost(x: nat, s: nat)
    ensures HighBits(x, s) <= x
  {
    if s > 0 {
      HighBitsAtMost(x / 2, s - 1);
    }
  }

  lemma {:induction false} HighBitsBelow(x: nat, a: nat, s: nat)
    ensures HighBits(x, s) < Pow2(a) <==> x < Pow2(a + s)
  {
    if s > 0 {
      HighBitsBelow(x / 2, a, s - 1);
    }
  }

  /** Bitwise or of naturals. */
  function Or(a: nat, b: nat): nat {
    if a == 0 then b
    else if b == 0 then a
    else 2 * Or(a / 2, b / 2) + if a % 2 == 1 || b % 2 == 1 then 1 else 0
  }

  /** Bitwise and of naturals. */
  function And(a: nat, b: nat): nat {
    if a == 0 || b == 0 then 0
    else 2 * And(a / 2, b / 2) + if a % 2 == 1 && b % 2 == 1 then 1 else 0
  }

  lemma OrStep(a: nat, b: nat)
    ensures Or(a, b) == 2 * Or(a / 2, b / 2) + if a % 2 == 1 || b % 2 == 1 then 1 else 0
  {
  }

  /** The lowest k bits are clear. */
  predicate Clear(x: nat, k: nat) {
    k == 0 || (x % 2 == 0 && Clear(x / 2, k - 1))
  }

  lemma {:induction false} MultipleIsClear(q: nat, k: nat)
    ensures Clear(q * Pow2(k), k)
  {
    if k > 0 {
      MultipleIsClear(q, k - 1);
      assert q * Pow2(k) == 2 * (q * Pow2(k - 1));
    }
  }

  lemma {:induction false} ClearRoom(x: nat, k: nat, more: nat)
    requires x < Pow2(k + more) && Clear(x, k)
    ensures x + Pow2(k) <= Pow2(k + more)
  {
    if k > 0 {
      ClearRoom(x / 2, k - 1, more);
    }
  }

  /** Or of numbers that share no bit position adds them. */
  lemma {:induction false} OrDisjoint(k: nat, lo: nat, hi: nat)
    requires lo < Pow2(k) && Clear(hi, k)
    ensures Or(lo, hi) == lo + hi && Or(hi, lo) == lo + hi
  {
    if k > 0 {
      OrDisjoint(k - 1, lo / 2, hi / 2);
      OrStep(lo, hi);
      OrStep(hi, lo);
    }
  }

  /** Setting a clear bit adds its weight. */
  lemma {:induction false} OrBit(k: nat, x: nat)
    requires HighBits(x, k) % 2 == 0
    ensures Or(x, Pow2(k)) == x + Pow2(k)
  {
    OrStep(x, Pow2(k));
    if k > 0 {
      OrBit(k - 1, x / 2);
    }
  }

  lemma {:induction false} AndBelow(a: nat, b: nat)
    ensures And(a, b) <= a && And(a, b) <= b
  {
    if a != 0 && b != 0 {
      AndBelow(a / 2, b / 2);
    }
  }
}

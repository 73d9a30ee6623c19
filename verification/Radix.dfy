/** Big-endian digit sequences in a base, and the room a number needs in another one. */
module Radix {
  import opened Numbers

  function Pow(base: nat, n: nat): nat {
    if n == 0 then 1 else base * Pow(base, n - 1)
  }

  lemma {:induction false} PowAdd(base: nat, a: nat, b: nat)
    ensures Pow(base, a + b) == Pow(base, a) * Pow(base, b)
  {
    if a > 0 {
      PowAdd(base, a - 1, b);
      assert base * (Pow(base, a - 1) * Pow(base, b)) == (base * Pow(base, a - 1)) * Pow(base, b);
    }
  }

  lemma {:induction false} PowMonotone(base: nat, a: nat, b: nat)
    requires base >= 1 && a <= b
    ensures Pow(base, a) <= Pow(base, b)
  {
    if a < b {
      PowMonotone(base, a, b - 1);
      MulMonotone(1, base, Pow(base, b - 1));
    }
  }

  ghost predicate AllDigits(s: seq<nat>, base: nat) {
    forall i :: 0 <= i < |s| ==> s[i] < base
  }

  /** The number a digit sequence stands for. */
  function Value(s: seq<nat>, base: nat): nat {
    if s == [] then 0 else Value(s[..|s| - 1], base) * base + s[|s| - 1]
  }

  /** The digits of a number, without leading zeros. */
  function Digits(v: nat, base: nat): seq<nat>
    requires base >= 2
  {
    if v == 0 then [] else QuotientLess(v, base); Digits(v / base, base) + [v % base]
  }

  lemma QuotientLess(v: nat, base: nat)
    requires v > 0 && base >= 2
    ensures 0 <= v / base < v && 0 <= v % base < base && v == (v / base) * base + v % base
    ensures v / base == 0 ==> v % base > 0
  {
    var q := v / base;
    MulMonotone(2, base, q);
  }

  lemma ValueSnoc(s: seq<nat>, x: nat, base: nat)
    ensures Value(s + [x], base) == Value(s, base) * base + x
  {
    assert (s + [x])[..|s|] == s;
  }

  lemma {:induction false} ValueBound(s: seq<nat>, base: nat)
    requires AllDigits(s, base)
    ensures Value(s, base) < Pow(base, |s|)
  {
    if s != [] {
      var t := s[..|s| - 1];
      ValueBound(t, base);
      MulMonotone(Value(t, base) + 1, Pow(base, |t|), base);
      assert (Value(t, base) + 1) * base == Value(t, base) * base + base;
    }
  }

  /** The top digit weighs the power of its place. */
  lemma {:induction false} ValueCons(x: nat, s: seq<nat>, base: nat)
    ensures Value([x] + s, base) == x * Pow(base, |s|) + Value(s, base)
  {
    var t := [x] + s;
    if s == [] {
      assert t[..0] == [];
    } else {
      var u := s[..|s| - 1];
      assert t[..|t| - 1] == [x] + u;
      ValueCons(x, u, base);
      assert (x * Pow(base, |u|) + Value(u, base)) * base == x * (base * Pow(base, |u|)) + Value(u, base) * base;
    }
  }

  lemma {:induction false} DigitsValue(v: nat, base: nat)
    requires base >= 2
    ensures Value(Digits(v, base), base) == v
  {
    if v > 0 {
      QuotientLess(v, base);
      DigitsValue(v / base, base);
      ValueSnoc(Digits(v / base, base), v % base, base);
    }
  }

  lemma {:induction false} DigitsShape(v: nat, base: nat)
    requires base >= 2
    ensures AllDigits(Digits(v, base), base)
    ensures v > 0 <==> Digits(v, base) != []
    ensures v > 0 ==> Digits(v, base)[0] != 0
  {
    if v > 0 {
      QuotientLess(v, base);
      DigitsShape(v / base, base);
    }
  }

  /** Digits without a leading zero are the digits of their number. */
  lemma {:induction false} DigitsUnique(s: seq<nat>, base: nat)
    requires base >= 2 && AllDigits(s, base) && (s != [] ==> s[0] != 0)
    ensures Digits(Value(s, base), base) == s
  {
    if s != [] {
      var t, x := s[..|s| - 1], s[|s| - 1];
      DigitsUnique(t, base);
      assert s == t + [x];
      DivModIs(Value(s, base), base, Value(t, base), x);
      LeadingPositive(s, base);
    }
  }

  lemma {:induction false} LeadingPositive(s: seq<nat>, base: nat)
    requires base >= 1 && s != [] && s[0] != 0
    ensures Value(s, base) > 0
  {
    var t := s[..|s| - 1];
    if t != [] {
      LeadingPositive(t, base);
      MulMonotone(1, base, Value(t, base));
    }
  }

  /** Leading zeros do not count. */
  lemma {:induction false} ValueZeros(n: nat, s: seq<nat>, base: nat)
    ensures Value(seq(n, _ => 0) + s, base) == Value(s, base)
  {
    if n > 0 {
      ValueZeros(n - 1, s, base);
      ValueCons(0, seq(n - 1, _ => 0) + s, base);
      assert seq(n, _ => 0) + s == [0] + (seq(n - 1, _ => 0) + s);
    } else {
      assert seq(n, _ => 0) + s == s;
    }
  }

  // ----- room

  /** Blocks of digits of one base that fit blocks of another. */
  lemma {:induction false} Blocks(b: nat, c: nat, m: nat, n: nat, q: nat)
    requires Pow(b, m) <= Pow(c, n)
    ensures Pow(b, m * q) <= Pow(c, n * q)
  {
    if q > 0 {
      Blocks(b, c, m, n, q - 1);
      PowAdd(b, m, m * (q - 1));
      PowAdd(c, n, n * (q - 1));
      assert m * q == m + m * (q - 1) && n * q == n + n * (q - 1);
      Products(Pow(b, m), Pow(c, n), Pow(b, m * (q - 1)), Pow(c, n * (q - 1)));
    }
  }

  lemma Products(a: nat, b: nat, c: nat, d: nat)
    requires a <= b && c <= d
    ensures a * c <= b * d
  {
    MulMonotone(a, b, c);
    MulMonotone(c, d, b);
  }

  /** Room for a number of bytes in base 58. */
  lemma EncodeRoom(n: nat)
    ensures Pow(256, n) <= Pow(58, n * 138 / 100 + 1)
  {
    var q, r := n / 8, n % 8;
    EightByteBlocks(q);
    EncodeRoomSmall(r);
    Join(256, 58, 8 * q, 11 * q, r, r * 138 / 100 + 1);
    PowMonotone(58, 11 * q + (r * 138 / 100 + 1), n * 138 / 100 + 1);
  }

  lemma Join(b: nat, c: nat, m: nat, n: nat, r: nat, s: nat)
    requires Pow(b, m) <= Pow(c, n) && Pow(b, r) <= Pow(c, s)
    ensures Pow(b, m + r) <= Pow(c, n + s)
  {
    PowAdd(b, m, r);
    PowAdd(c, n, s);
    Products(Pow(b, m), Pow(c, n), Pow(b, r), Pow(c, s));
  }

  lemma EightByteBlocks(q: nat)
    ensures Pow(256, 8 * q) <= Pow(58, 11 * q)
  {
    var n, m := 8, 11;
    EightBytes(n, m);
    Blocks(256, 58, n, m, q);
  }

  lemma EightBytes(n: nat, m: nat)
    requires n == 8 && m == 11
    ensures Pow(256, n) <= Pow(58, m)
  {
    assert Pow(256, 8) <= Pow(58, 11);
  }

  lemma MiddleBlock(n: nat, m: nat)
    requires n == 15 && m == 11
    ensures Pow(58, n) <= Pow(256, m)
  {
    assert Pow(58, 15) <= Pow(256, 11);
  }

  lemma EncodeRoomSmall(r: nat)
    requires r < 8
    ensures Pow(256, r) <= Pow(58, r * 138 / 100 + 1)
  {
    assert Pow(256, 0) <= Pow(58, 1) && Pow(256, 1) <= Pow(58, 2) && Pow(256, 2) <= Pow(58, 3);
    assert Pow(256, 3) <= Pow(58, 5) && Pow(256, 4) <= Pow(58, 6) && Pow(256, 5) <= Pow(58, 7);
    assert Pow(256, 6) <= Pow(58, 9) && Pow(256, 7) <= Pow(58, 10);
  }

  /** Room for a number of base 58 digits in bytes. */
  lemma DecodeRoom(n: nat)
    ensures Pow(58, n) <= Pow(256, n * 733 / 1000 + 1)
  {
    var p, r := n / 71, n % 71;
    var q, t := r / 15, r % 15;
    var digits, bytes := 71 * p + (15 * q + t), 52 * p + (11 * q + SmallRoom(t));
    DecodeRoomParts(p, q, t);
    RoomSum(p, q, t);
    assert digits == n;
    PowMonotone(256, bytes, n * 733 / 1000 + 1);
  }

  lemma DecodeRoomParts(p: nat, q: nat, t: nat)
    requires t < 15
    ensures Pow(58, 71 * p + (15 * q + t)) <= Pow(256, 52 * p + (11 * q + SmallRoom(t)))
  {
    LargeBlocks(p);
    MiddleBlocks(q);
    DecodeRoomSmall(t);
    Join(58, 256, 15 * q, 11 * q, t, SmallRoom(t));
    Join(58, 256, 71 * p, 52 * p, 15 * q + t, 11 * q + SmallRoom(t));
  }

  lemma LargeBlocks(p: nat)
    ensures Pow(58, 71 * p) <= Pow(256, 52 * p)
  {
    var n, m := 71, 52;
    LargeBlock(n, m);
    Blocks(58, 256, n, m, p);
  }

  lemma MiddleBlocks(q: nat)
    ensures Pow(58, 15 * q) <= Pow(256, 11 * q)
  {
    var n, m := 15, 11;
    MiddleBlock(n, m);
    Blocks(58, 256, n, m, q);
  }

  lemma RoomSum(p: nat, q: nat, t: nat)
    requires q <= 4
    ensures 52 * p + (11 * q + SmallRoom(t)) <= (71 * p + (15 * q + t)) * 733 / 1000 + 1
  {
  }

  function SmallRoom(t: nat): nat {
    if t == 0 then 0 else (733 * t - 20) / 1000 + 1
  }

  lemma {:induction false} DecodeRoomSmall(t: nat)
    requires t < 15
    ensures Pow(58, t) <= Pow(256, SmallRoom(t))
  {
    if t < 4 {
      assert Pow(58, 0) <= Pow(256, 0) && Pow(58, 1) <= Pow(256, 1);
      assert Pow(58, 2) <= Pow(256, 2) && Pow(58, 3) <= Pow(256, 3);
    } else {
      DecodeRoomSmall(t - 4);
      var four, three := 4, 3;
      FourDigits(four, three);
      Join(58, 256, four, three, t - 4, SmallRoom(t - 4));
    }
  }

  lemma FourDigits(n: nat, m: nat)
    requires n == 4 && m == 3
    ensures Pow(58, n) <= Pow(256, m)
  {
    assert Pow(58, 4) <= Pow(256, 3);
  }

  /** An upper bound of a power of 58 by a short mantissa. */
  ghost predicate Under(n: nat, m: nat, k: nat) {
    Pow(58, n) <= m * Pow2(k)
  }

  lemma UnderProduct(n: nat, m: nat, k: nat, n1: nat, m1: nat, k1: nat, r: nat, d: nat)
    requires Under(n, m, k) && Under(n1, m1, k1) && m * m1 <= r * Pow2(d)
    ensures Under(n + n1, r, k + k1 + d)
  {
    PowAdd(58, n, n1);
    Pow2Add(k, k1);
    Pow2Add(k + k1, d);
    ProductBound(Pow(58, n), Pow(58, n1), m, Pow2(k), m1, Pow2(k1), r, Pow2(d));
  }

  lemma ProductBound(a: nat, b: nat, m: nat, p: nat, m1: nat, p1: nat, r: nat, e: nat)
    requires a <= m * p && b <= m1 * p1 && m * m1 <= r * e
    ensures a * b <= r * (p * p1 * e)
  {
    Products(a, m * p, b, m1 * p1);
    assert (m * p) * (m1 * p1) == (m * m1) * (p * p1);
    MulMonotone(m * m1, r * e, p * p1);
    assert (r * e) * (p * p1) == r * (p * p1 * e);
  }

  lemma {:induction false} BytesPow(n: nat)
    ensures Pow(256, n) == Pow2(8 * n)
  {
    if n > 0 {
      BytesPow(n - 1);
      Pow2Add(8, 8 * (n - 1));
      assert Pow2(8) == 256;
    }
  }

  lemma Powers20()
    ensures Pow2(19) == 524288 && Pow2(20) == 1048576 && Pow2(25) == 33554432
  {
    assert Pow2(10) == 1024;
    Pow2Add(9, 10);
    Pow2Add(10, 10);
    Pow2Add(5, 20);
  }

  lemma Under10(n: nat, k: nat)
    requires n == 10 && k == 39
    ensures Under(n, 783629, k)
  {
    assert Pow(58, 10) == 430804206899405824;
    assert Pow2(20) == 1048576 by {
      Powers20();
    }
    assert Pow2(39) == 549755813888 by {
      Powers20();
      Pow2Add(19, 20);
    }
  }

  lemma Under20(n: nat, k: nat)
    requires n == 20 && k == 98
    ensures Under(n, 585627, k)
  {
    var half, k10, d := 10, 39, 20;
    Powers20();
    Under10(half, k10);
    UnderProduct(half, 783629, k10, half, 783629, k10, 585627, d);
  }

  lemma Under40(n: nat, k: nat)
    requires n == 40 && k == 215
    ensures Under(n, 654143, k)
  {
    var half, k20, d := 20, 98, 19;
    Powers20();
    Under20(half, k20);
    UnderProduct(half, 585627, k20, half, 585627, k20, 654143, d);
  }

  lemma Under60(n: nat, k: nat)
    requires n == 60 && k == 332
    ensures Under(n, 730675, k)
  {
    var n20, k20, n40, k40, d := 20, 98, 40, 215, 19;
    Powers20();
    Under20(n20, k20);
    Under40(n40, k40);
    UnderProduct(n40, 654143, k40, n20, 585627, k20, 730675, d);
  }

  /** Seventy-one digits fit fifty-two bytes. */
  lemma LargeBlock(n: nat, bytes: nat)
    requires n == 71 && bytes == 52
    ensures Pow(58, n) <= Pow(256, bytes)
  {
    var n10, k10, n60, k60, k70, d20, d25 := 10, 39, 60, 332, 391, 20, 25;
    Powers20();
    Under10(n10, k10);
    Under60(n60, k60);
    UnderProduct(n60, 730675, k60, n10, 783629, k10, 546054, d20);
    LastDigit(n - 1, k70, d25);
    BytesPow(bytes);
  }

  lemma LastDigit(n: nat, k: nat, d: nat)
    requires Under(n, 546054, k) && Pow2(d) == 33554432
    ensures Pow(58, n + 1) <= Pow2(d + k)
  {
    MulMonotone(58 * 546054, Pow2(d), Pow2(k));
    Pow2Add(d, k);
  }
}

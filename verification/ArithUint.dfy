/** Fixed-width unsigned arithmetic on an array of 32-bit words. */
module ArithUint {
  import opened Numbers
  import opened Words
  import opened WordShifts

  /** Sums and products with the carry of the lower words. */
  ghost predicate Carried(w: seq<nat>, i: nat, carry: nat, total: nat)
    requires i <= |w|
  {
    Val(w[..i]) + carry * Mod(i) == total
  }

  lemma CarryOn(w: seq<nat>, i: nat, carry: nat, total: nat, more: nat, lo: nat, hi: nat)
    requires i < |w| && Carried(w, i, carry, total) && lo + hi * B == carry + more
    ensures Carried(w[i := lo], i + 1, hi, total + more * Mod(i))
  {
    var u := w[i := lo];
    assert u[..i] == w[..i];
    ValPrefix(u, i);
    Recombine(lo, hi, carry, more, Mod(i));
  }

  lemma Recombine(lo: nat, hi: nat, carry: nat, more: nat, place: nat)
    requires lo + hi * B == carry + more
    ensures lo * place + hi * (B * place) == carry * place + more * place
  {
    assert (lo + hi * B) * place == (carry + more) * place;
    assert (hi * B) * place == hi * (B * place);
  }

  ghost function SumTo(a: seq<nat>, b: seq<nat>, i: nat): nat
    requires i <= |a| && i <= |b|
  {
    Val(a[..i]) + Val(b[..i])
  }

  lemma AddOn(a: seq<nat>, b: seq<nat>, w: seq<nat>, i: nat, carry: nat, lo: nat, hi: nat)
    requires i < |a| == |b| == |w| && Carried(w, i, carry, SumTo(a, b, i))
    requires lo + hi * B == carry + a[i] + b[i]
    ensures Carried(w[i := lo], i + 1, hi, SumTo(a, b, i + 1))
  {
    CarryOn(w, i, carry, SumTo(a, b, i), a[i] + b[i], lo, hi);
    ValPrefix(a, i);
    ValPrefix(b, i);
    assert (a[i] + b[i]) * Mod(i) == a[i] * Mod(i) + b[i] * Mod(i);
  }

  /** All words done: the carry is what the size of the number leaves out. */
  lemma CarryOut(w: seq<nat>, carry: nat, total: nat)
    requires AllWords(w) && Carried(w, |w|, carry, total)
    ensures Val(w) == total % Mod(|w|)
  {
    assert w[..|w|] == w;
    ValBound(w);
    DivModIs(total, Mod(|w|), carry, Val(w));
  }

  ghost function ScaledTo(c: nat, a: seq<nat>, i: nat): nat
    requires i <= |a|
  {
    c * Val(a[..i])
  }

  lemma ScaleOn(a: seq<nat>, c: nat, w: seq<nat>, i: nat, carry: nat, lo: nat, hi: nat)
    requires i < |a| == |w| && Carried(w, i, carry, ScaledTo(c, a, i))
    requires lo + hi * B == carry + c * a[i]
    ensures Carried(w[i := lo], i + 1, hi, ScaledTo(c, a, i + 1))
  {
    CarryOn(w, i, carry, ScaledTo(c, a, i), c * a[i], lo, hi);
    ValPrefix(a, i);
    Distribute(c, Val(a[..i]), a[i], Mod(i));
  }

  lemma Distribute(c: nat, v: nat, x: nat, m: nat)
    ensures c * (v + x * m) == c * v + (c * x) * m
  {
    assert c * (x * m) == (c * x) * m;
  }

  lemma ProductFits(x: nat, y: nat, c: nat, d: nat)
    requires x < B && y < B && c < B && d < B
    ensures c + d + x * y < B * B
  {
    MulMonotone(x, B - 1, y);
    MulMonotone(y, B - 1, B - 1);
  }

  /** A product of words with two words added: it fits 64 bits, and so do its halves 32. */
  method MulAdd(x: nat, y: nat, c: nat, d: nat) returns (lo: nat, hi: nat)
    requires x < B && y < B && c < B && d < B
    ensures lo + hi * B == c + d + x * y && lo < B && hi < B
  {
    var n := c + d + x * y;
    ProductFits(x, y, c, d);
    lo, hi := n % B, n / B;
  }

  lemma {:induction false} ComplementIs(a: seq<nat>, b: seq<nat>)
    requires |a| == |b| && forall i :: 0 <= i < |a| ==> a[i] + b[i] == B - 1
    ensures Val(a) + Val(b) == Mod(|a|) - 1
  {
    if a != [] {
      ComplementIs(a[1..], b[1..]);
    }
  }

  /** Words that wrapped to zero below a place, where they were all ones. */
  ghost predicate Rolled(was: seq<nat>, w: seq<nat>, i: nat) {
    && i < |w| == |was|
    && Val(w[..i]) == 0 && Val(was[..i]) == Mod(i) - 1 && w[i..] == was[i..]
  }

  lemma RollOn(was: seq<nat>, w: seq<nat>, i: nat)
    requires Rolled(was, w, i) && w[i] == B - 1 && i + 1 < |w|
    ensures Rolled(was, w[i := 0], i + 1)
  {
    var u := w[i := 0];
    assert u[..i] == w[..i] && was[i] == was[i..][0] == w[i..][0];
    ValPrefix(u, i);
    ValPrefix(was, i);
    assert u[i + 1..] == w[i..][1..] && was[i + 1..] == was[i..][1..];
  }

  lemma RollStops(was: seq<nat>, w: seq<nat>, i: nat)
    requires Rolled(was, w, i)
    ensures Val(w[i := w[i] + 1]) == Val(was) + 1
  {
    var u := w[i := w[i] + 1];
    ValSplit(was, i);
    ValSplit(u, i);
    assert u[..i] == w[..i];
    assert u[i..][1..] == was[i..][1..] && u[i] == was[i..][0] + 1;
    PlusOne(Mod(i), Val(was[i..]));
  }

  lemma PlusOne(m: nat, v: nat)
    ensures m * (v + 1) == m * v + m
  {
  }

  lemma RollWraps(was: seq<nat>, w: seq<nat>, i: nat)
    requires Rolled(was, w, i) && w[i] == B - 1 && i + 1 == |w|
    ensures Val(was) + 1 == Mod(|was|) && Val(w[i := 0]) == 0
  {
    var u := w[i := 0];
    assert was[i] == was[i..][0] == w[i..][0];
    ValPrefix(was, i);
    ValPrefix(u, i);
    assert u[..i] == w[..i] && was[..i + 1] == was && u[..i + 1] == u;
    PlusOne(Mod(i), B - 1);
  }

  lemma RollEnds(was: seq<nat>, w: seq<nat>, i: nat, x: nat)
    requires AllWords(was) && Rolled(was, w, i) && w[i] < B
    requires x == w[i] + 1 < B || (i + 1 == |w| && w[i] == B - 1 && x == 0)
    ensures Val(w[i := x]) == (Val(was) + 1) % Mod(|was|)
  {
    if x == 0 {
      RollWraps(was, w, i);
      DivModIs(Mod(|was|), Mod(|was|), 1, 0);
    } else {
      RollStops(was, w, i);
      RolledFits(was, w, i);
      DivModIs(Val(was) + 1, Mod(|was|), 0, Val(was) + 1);
    }
  }

  lemma RolledFits(was: seq<nat>, w: seq<nat>, i: nat)
    requires AllWords(was) && Rolled(was, w, i) && w[i] + 1 < B
    ensures Val(w[i := w[i] + 1]) < Mod(|was|)
  {
    var u := w[i := w[i] + 1];
    ValZeros(w[..i]);
    forall j | 0 <= j < |u|
      ensures u[j] < B
    {
      if j < i {
        assert u[j] == w[..i][j];
      } else if j > i {
        assert u[j] == w[i..][j - i] == was[i..][j - i];
      }
    }
    ValBound(u);
  }

  lemma SubWraps(x: nat, y: nat, m: nat)
    requires y < m
    ensures (x + (m - y) % m) % m == (x - y) % m
  {
    if y == 0 {
      DivModIs(m, m, 1, 0);
    } else {
      DivModIs(m - y, m, 0, m - y);
      var q, r := (x - y) / m, (x - y) % m;
      assert x - y == q * m + r;
      DivModIs(x + m - y, m, q + 1, r);
    }
  }

  // ----- products row by row

  ghost function RowTotal(was: seq<nat>, b: seq<nat>, x: nat, j: nat, i: nat): nat
    requires j + i <= |was| && i <= |b|
  {
    Val(was[j..][..i]) + ScaledTo(x, b, i)
  }

  /** A row of the product: `x` times the first words of `b`, added from place `j` on. */
  ghost predicate Row(was: seq<nat>, w: seq<nat>, b: seq<nat>, x: nat, j: nat, i: nat, carry: nat) {
    && j + i <= |w| == |was| == |b|
    && w[..j] == was[..j] && w[j + i..] == was[j + i..]
    && Carried(w[j..], i, carry, RowTotal(was, b, x, j, i))
  }

  lemma RowTotalOn(was: seq<nat>, b: seq<nat>, x: nat, j: nat, i: nat)
    requires j + i < |was| && i < |b|
    ensures RowTotal(was, b, x, j, i + 1) == RowTotal(was, b, x, j, i) + (was[j + i] + x * b[i]) * Mod(i)
  {
    ValPrefix(was[j..], i);
    ValPrefix(b, i);
    Distribute(x, Val(b[..i]), b[i], Mod(i));
    assert (was[j + i] + x * b[i]) * Mod(i) == was[j + i] * Mod(i) + (x * b[i]) * Mod(i);
  }

  lemma RowOn(was: seq<nat>, w: seq<nat>, b: seq<nat>, x: nat, j: nat, i: nat, carry: nat, lo: nat, hi: nat)
    requires Row(was, w, b, x, j, i, carry) && j + i < |w|
    requires lo + hi * B == carry + w[j + i] + x * b[i]
    ensures Row(was, w[j + i := lo], b, x, j, i + 1, hi)
  {
    var u := w[j + i := lo];
    assert u[..j] == w[..j];
    assert w[j + i] == w[j + i..][0] == was[j + i..][0] == was[j + i];
    assert u[j + i + 1..] == w[j + i..][1..] && was[j + i + 1..] == was[j + i..][1..];
    assert u[j..] == w[j..][i := lo];
    CarryOn(w[j..], i, carry, RowTotal(was, b, x, j, i), was[j + i] + x * b[i], lo, hi);
    RowTotalOn(was, b, x, j, i);
  }

  /** What a finished row leaves out, in units of the size of the number. */
  ghost function RowExcess(b: seq<nat>, x: nat, j: nat, carry: nat): nat
    requires j <= |b|
  {
    carry + x * Val(b[|b| - j..])
  }

  lemma RowFull(was: seq<nat>, w: seq<nat>, b: seq<nat>, x: nat, j: nat, carry: nat)
    requires j <= |w| && Row(was, w, b, x, j, |w| - j, carry)
    ensures var i := |w| - j; Val(w[j..]) + carry * Mod(i) == Val(was[j..]) + x * Val(b[..i])
    ensures w[..j] == was[..j]
  {
    var i := |w| - j;
    assert w[j..][..i] == w[j..] && was[j..][..i] == was[j..];
  }

  lemma RowEnd(was: seq<nat>, w: seq<nat>, b: seq<nat>, x: nat, j: nat, carry: nat)
    requires j <= |w| == |was| == |b| && w[..j] == was[..j]
    requires Val(w[j..]) + carry * Mod(|w| - j) == Val(was[j..]) + x * Val(b[..|w| - j])
    ensures Val(w) + RowExcess(b, x, j, carry) * Mod(|w|) == Val(was) + x * Mod(j) * Val(b)
  {
    var i := |w| - j;
    ValSplit(w, j);
    ValSplit(was, j);
    ValSplit(b, i);
    ModAdd(j, i);
    RowSum(Val(w), Val(was), Val(w[..j]), Val(w[j..]), Val(was[j..]), Val(b), Val(b[..i]), Val(b[i..]),
           x, carry, Mod(i), Mod(j), Mod(|w|));
  }

  lemma RowSum(w: nat, w0: nat, low: nat, v: nat, v0: nat, b: nat, bl: nat, bh: nat,
               x: nat, carry: nat, mi: nat, mj: nat, m: nat)
    requires w == low + mj * v && w0 == low + mj * v0 && b == bl + mi * bh && m == mj * mi
    requires v + carry * mi == v0 + x * bl
    ensures w + (carry + x * bh) * m == w0 + x * mj * b
  {
    assert mj * (v + carry * mi) == mj * (v0 + x * bl);
    assert mj * (carry * mi) == carry * m;
    assert (carry + x * bh) * m == carry * m + (x * bh) * m;
    assert (x * bh) * m == x * mj * (mi * bh);
    assert mj * (x * bl) == x * mj * bl;
    assert x * mj * b == x * mj * bl + x * mj * (mi * bh);
  }

  /** The rows so far, with what they leave out. */
  ghost predicate Rows(w: seq<nat>, a: seq<nat>, b: seq<nat>, j: nat, excess: nat) {
    && j <= |a| == |b| == |w|
    && Val(w) + excess * Mod(|w|) == Val(a[..j]) * Val(b)
  }

  lemma RowsOn(was: seq<nat>, w: seq<nat>, a: seq<nat>, b: seq<nat>, j: nat, excess: nat, carry: nat)
    requires Rows(was, a, b, j, excess) && j < |a| && j <= |w| && Row(was, w, b, a[j], j, |w| - j, carry)
    ensures Rows(w, a, b, j + 1, excess + RowExcess(b, a[j], j, carry))
  {
    RowFull(was, w, b, a[j], j, carry);
    RowEnd(was, w, b, a[j], j, carry);
    ValPrefix(a, j);
    RowsSum(Val(w), Val(was), excess, RowExcess(b, a[j], j, carry), Mod(|w|), Val(a[..j]), a[j], Mod(j), Val(b));
  }

  lemma RowsSum(v: nat, v0: nat, excess: nat, more: nat, m: nat, a: nat, x: nat, mj: nat, b: nat)
    requires v0 + excess * m == a * b && v + more * m == v0 + x * mj * b
    ensures v + (excess + more) * m == (a + x * mj) * b
  {
    assert (excess + more) * m == excess * m + more * m;
    assert (a + x * mj) * b == a * b + x * mj * b;
  }

  lemma RowsDone(w: seq<nat>, a: seq<nat>, b: seq<nat>, excess: nat)
    requires AllWords(w) && Rows(w, a, b, |a|, excess)
    ensures Val(w) == (Val(a) * Val(b)) % Mod(|w|)
  {
    assert a[..|a|] == a;
    ValBound(w);
    DivModIs(Val(a) * Val(b), Mod(|w|), excess, Val(w));
  }

  lemma SameAbove(a: seq<nat>, b: seq<nat>, i: nat)
    requires |a| == |b| && AllWords(a) && AllWords(b) && i < |a| && a[i] < b[i]
    requires forall j :: i < j < |a| ==> a[j] == b[j]
    ensures Val(a) < Val(b)
  {
    assert a[i + 1..] == b[i + 1..];
    ValOrder(a, b, i);
  }

  // ----- the highest bit

  /** The highest bit of a word that is not zero, found from the top. */
  method TopBit(x: nat) returns (n: nat)
    requires 0 < x < B
    ensures n < 32 && Pow2(n) <= x < Pow2(n + 1)
  {
    n := 31;
    WordPow();
    while n > 0
      invariant n < 32 && x < Pow2(n + 1)
    {
      BitTest(x, n);
      if HighBits(x, n) % 2 == 1 {
        return;
      }
      n := n - 1;
    }
  }

  lemma BitTest(x: nat, n: nat)
    requires x < Pow2(n + 1)
    ensures HighBits(x, n) % 2 == 1 <==> x >= Pow2(n)
  {
    HighBitsBelow(x, 1, n);
    HighBitsBelow(x, 0, n);
  }

  lemma TopWord(w: seq<nat>, pos: nat, n: nat)
    requires AllWords(w) && pos < |w| && n < 32 && Pow2(n) <= w[pos] < Pow2(n + 1)
    requires forall j :: pos < j < |w| ==> w[j] == 0
    ensures Pow2(32 * pos + n) <= Val(w) < Pow2(32 * pos + n + 1)
  {
    TopWordValue(w, pos);
    ValBound(w[..pos]);
    PlaceIsPow(pos, n);
    PlaceIsPow(pos, n + 1);
    TopWordBounds(w[pos], Mod(pos), Val(w[..pos]), Pow2(n), Pow2(n + 1));
  }

  lemma {:induction false} TopWordValue(w: seq<nat>, pos: nat)
    requires pos < |w| && forall j :: pos < j < |w| ==> w[j] == 0
    ensures Val(w) == Val(w[..pos]) + w[pos] * Mod(pos)
  {
    if pos == 0 {
      ValZeros(w[1..]);
    } else {
      TopWordValue(w[1..], pos - 1);
      assert w[..pos][1..] == w[1..][..pos - 1];
      assert B * (w[pos] * Mod(pos - 1)) == w[pos] * Mod(pos);
    }
  }

  lemma TopWordBounds(x: nat, m: nat, rest: nat, low: nat, high: nat)
    requires low <= x < high && rest < m
    ensures low * m <= rest + x * m < high * m
  {
    MulMonotone(low, x, m);
    MulMonotone(x + 1, high, m);
    assert (x + 1) * m == x * m + m;
  }

  // ----- division, one quotient bit at a time

  ghost predicate Dividing(n: nat, d: nat, q: nat, r: nat, aligned: nat, shift: int) {
    && shift >= -1
    && n == q * d + r
    && r < d * Pow2(shift + 1)
    && (shift >= 0 ==> aligned == d * Pow2(shift))
  }

  lemma DivideStart(n: nat, d: nat, numBits: nat, divBits: nat)
    requires 0 < divBits <= numBits && n < Pow2(numBits) && Pow2(divBits - 1) <= d < Pow2(divBits)
    ensures Dividing(n, d, 0, n, d * Pow2(numBits - divBits), numBits - divBits)
    ensures d * Pow2(numBits - divBits) < Pow2(numBits)
  {
    var s := numBits - divBits;
    Pow2Add(divBits - 1, s + 1);
    Pow2Add(divBits, s);
    MulMonotone(Pow2(divBits - 1), d, Pow2(s + 1));
    MulMonotone(d + 1, Pow2(divBits), Pow2(s));
    assert (d + 1) * Pow2(s) == d * Pow2(s) + Pow2(s);
  }

  lemma HalveAligned(d: nat, shift: nat, aligned: nat)
    requires aligned == d * Pow2(shift)
    ensures shift > 0 ==> HighBits(aligned, 1) == d * Pow2(shift - 1)
  {
    if shift > 0 {
      assert aligned == 2 * (d * Pow2(shift - 1));
    }
  }

  lemma TakeBit(n: nat, d: nat, q: nat, r: nat, p: nat)
    requires n == q * d + r && d * p <= r < d * (2 * p)
    ensures n == (q + p) * d + (r - d * p) && r - d * p < d * p
  {
    assert (q + p) * d == q * d + d * p;
    assert d * (2 * p) == d * p + d * p;
  }

  lemma DivideStep(n: nat, d: nat, q: nat, r: nat, aligned: nat, shift: nat)
    requires Dividing(n, d, q, r, aligned, shift)
    ensures r < aligned ==> Dividing(n, d, q, r, HighBits(aligned, 1), shift - 1)
    ensures r >= aligned ==> Dividing(n, d, q + Pow2(shift), r - aligned, HighBits(aligned, 1), shift - 1)
  {
    HalveAligned(d, shift, aligned);
    if r >= aligned {
      TakeBit(n, d, q, r, Pow2(shift));
    }
  }

  /** The bits of a number below a position are clear, word by word. */
  ghost predicate LowClear(w: seq<nat>, n: nat) {
    && (forall i :: 0 <= i < |w| && i < n / 32 ==> w[i] == 0)
    && (n / 32 < |w| ==> Clear(w[n / 32], n % 32))
  }

  lemma {:induction false} ClearLess(x: nat, k: nat)
    requires Clear(x, k + 1)
    ensures Clear(x, k)
  {
    if k > 0 {
      ClearLess(x / 2, k - 1);
    }
  }

  lemma {:induction false} ClearAdd(x: nat, k: nat)
    requires Clear(x, k + 1)
    ensures Clear(x + Pow2(k), k)
  {
    if k > 0 {
      ClearAdd(x / 2, k - 1);
      assert (x + Pow2(k)) / 2 == x / 2 + Pow2(k - 1);
    }
  }

  lemma {:induction false} ZeroClear(k: nat)
    ensures Clear(0, k)
  {
    if k > 0 {
      ZeroClear(k - 1);
    }
  }

  lemma NextBitClear(w: seq<nat>, n: nat)
    requires LowClear(w, n + 1) && n / 32 < |w|
    ensures Clear(w[n / 32], n % 32 + 1) && forall i :: 0 <= i < n / 32 ==> w[i] == 0
  {
    if n % 32 == 31 {
      ZeroClear(32);
    }
  }

  lemma KeepBit(w: seq<nat>, n: nat)
    requires LowClear(w, n + 1)
    ensures LowClear(w, n)
  {
    if n / 32 < |w| {
      NextBitClear(w, n);
      ClearLess(w[n / 32], n % 32);
    }
  }

  lemma SetBitWord(x: nat, k: nat)
    requires x < B && k < 32 && Clear(x, k + 1)
    ensures Or(x, Pow2(k)) == x + Pow2(k) < B && Clear(x + Pow2(k), k)
  {
    OrDisjoint(k + 1, Pow2(k), x);
    ClearAdd(x, k);
    ClearFits(x, k);
  }

  /** Setting the next bit of the quotient adds its weight and keeps the lower ones clear. */
  lemma SetBit(w: seq<nat>, n: nat, x: nat)
    requires LowClear(w, n + 1) && n / 32 < |w| && AllWords(w) && x == Or(w[n / 32], Pow2(n % 32))
    ensures x < B && LowClear(w[n / 32 := x], n) && Val(w[n / 32 := x]) == Val(w) + Pow2(n)
  {
    var i, k := n / 32, n % 32;
    NextBitClear(w, n);
    SetBitWord(w[i], k);
    ValPlace(w, i, Pow2(k));
    PlaceIsPow(i, k);
  }

  lemma PlaceIsPow(i: nat, k: nat)
    ensures Pow2(k) * Mod(i) == Pow2(32 * i + k)
  {
    ModIsPow(i);
    Pow2Add(k, 32 * i);
  }

  lemma ClearFits(x: nat, k: nat)
    requires x < B && k < 32 && Clear(x, k + 1)
    ensures x + Pow2(k) < B
  {
    WordPow();
    ClearRoom(x, k + 1, 31 - k);
    assert Pow2(k + 1) == 2 * Pow2(k);
  }

  lemma {:induction false} ValPlace(w: seq<nat>, i: nat, more: nat)
    requires i < |w|
    ensures Val(w[i := w[i] + more]) == Val(w) + more * Mod(i)
  {
    var u := w[i := w[i] + more];
    if i == 0 {
      assert u[1..] == w[1..];
    } else {
      ValPlace(w[1..], i - 1, more);
      assert u[1..] == w[1..][i - 1 := w[i] + more];
      assert B * (more * Mod(i - 1)) == more * Mod(i);
    }
  }

  lemma AlignFits(width: nat, bits: nat, v: nat)
    requires bits <= 32 * width && v < Pow2(bits)
    ensures v % Mod(width) == v
  {
    ModIsPow(width);
    Pow2Monotone(bits, 32 * width);
    DivModIs(v, Mod(width), 0, v);
  }

  lemma AllClear(w: seq<nat>, n: nat)
    requires forall i :: 0 <= i < |w| ==> w[i] == 0
    ensures LowClear(w, n)
  {
    ZeroClear(n % 32);
  }

  lemma TwoWords(w: seq<nat>)
    requires |w| >= 2 && forall i :: 2 <= i < |w| ==> w[i] == 0
    ensures Val(w) == w[0] + B * w[1]
  {
    ValZeros(w[2..]);
    assert w[1..][1..] == w[2..];
  }

  lemma LowWords(w: seq<nat>)
    requires |w| >= 2 && AllWords(w)
    ensures Val(w) % (B * B) == w[0] + B * w[1]
  {
    assert w[1..][1..] == w[2..];
    assert Val(w[1..]) == w[1] + B * Val(w[2..]);
    DivModIs(Val(w), B * B, Val(w[2..]), w[0] + B * w[1]);
  }

  lemma HighWord(w: seq<nat>, i: nat)
    requires 2 <= i < |w| && w[i] != 0
    ensures Val(w) >= B * B
  {
    ValSplit(w, 2);
    assert w[2..][i - 2] == w[i];
    ValZeros(w[2..]);
    assert Mod(2) == B * B;
  }

  lemma JoinWords(lo: nat, hi: nat)
    requires lo < B
    ensures Or(lo, hi * B) == lo + B * hi
  {
    WordPow();
    MultipleIsClear(hi, 32);
    OrDisjoint(32, lo, hi * B);
  }

  lemma QuotientZero(n: nat, d: nat, numBits: nat, divBits: nat)
    requires numBits < divBits && n < Pow2(numBits) && Pow2(divBits - 1) <= d
    ensures d > 0 && n / d == 0
  {
    Pow2Monotone(numBits, divBits - 1);
    DivModIs(n, d, 0, n);
  }

  class BaseUint {
    const pn: array<nat>

    ghost predicate Valid()
      reads pn
    {
      pn.Length > 0 && AllWords(pn[..])
    }

    ghost function Value(): nat
      reads pn
    {
      Val(pn[..])
    }

    ghost function Size(): nat {
      Mod(pn.Length)
    }

    constructor (width: nat)
      requires width > 0
      ensures Valid() && fresh(pn) && pn.Length == width && Value() == 0
    {
      pn := new nat[width](_ => 0);
      new;
      ValZeros(pn[..]);
    }

    constructor Copy(b: BaseUint)
      requires b.Valid()
      ensures Valid() && fresh(pn) && pn.Length == b.pn.Length && pn[..] == b.pn[..]
    {
      var words := b.pn;
      pn := new nat[words.Length](i requires 0 <= i < words.Length reads words => words[i]);
      new;
      assert pn[..] == b.pn[..];
    }

    method Write(i: nat, x: nat)
      requires i < pn.Length
      modifies pn
      ensures pn[..] == old(pn[..])[i := x]
    {
      pn[i] := x;
      assert pn[..] == old(pn[..])[i := x];
    }

    method Store(i: nat, x: nat)
      requires Valid() && i < pn.Length && x < B
      modifies pn
      ensures Valid() && pn[..] == old(pn[..])[i := x]
    {
      Write(i, x);
    }

    method AddWith(b: BaseUint)
      requires Valid() && b.Valid() && b.pn.Length == pn.Length
      modifies pn
      ensures Valid() && Value() == (old(Value()) + old(b.Value())) % Size()
    {
      ghost var was, bs := pn[..], b.pn[..];
      var carry: nat, i: nat := 0, 0;
      while i < pn.Length
        invariant i <= pn.Length && Valid() && carry <= 1
        invariant Carried(pn[..], i, carry, SumTo(was, bs, i))
        invariant forall j :: i <= j < pn.Length ==> pn[j] == was[j] && b.pn[j] == bs[j]
      {
        var n := carry + pn[i] + b.pn[i];
        AddOn(was, bs, pn[..], i, carry, n % B, n / B);
        Store(i, n % B);
        carry := n / B;
        i := i + 1;
      }
      assert was[..i] == was && bs[..i] == bs;
      CarryOut(pn[..], carry, SumTo(was, bs, i));
    }

    /** All bits flipped. */
    method Not() returns (r: BaseUint)
      requires Valid()
      ensures fresh(r) && fresh(r.pn) && r.Valid() && r.pn.Length == pn.Length
      ensures r.Value() == Size() - 1 - Value()
    {
      r := new BaseUint(pn.Length);
      var i := 0;
      while i < pn.Length
        invariant 0 <= i <= pn.Length && r.Valid() && pn[..] == old(pn[..])
        invariant forall j :: 0 <= j < i ==> r.pn[j] == B - 1 - pn[j]
      {
        r.Store(i, B - 1 - pn[i]);
        i := i + 1;
      }
      ComplementIs(r.pn[..], pn[..]);
    }

    method Increment()
      requires Valid()
      modifies pn
      ensures Valid() && Value() == (old(Value()) + 1) % Size()
    {
      ghost var was := pn[..];
      var i: nat := 0;
      while pn[i] == B - 1 && i < pn.Length - 1
        invariant i < pn.Length && Valid() && Rolled(was, pn[..], i)
      {
        RollOn(was, pn[..], i);
        Store(i, 0);
        i := i + 1;
      }
      var x := (pn[i] + 1) % B;
      RollEnds(was, pn[..], i, x);
      Store(i, x);
    }

    method Negate() returns (r: BaseUint)
      requires Valid()
      ensures fresh(r) && fresh(r.pn) && r.Valid() && r.pn.Length == pn.Length
      ensures r.Value() == (Size() - Value()) % Size()
    {
      r := Not();
      r.Increment();
    }

    method SubWith(b: BaseUint)
      requires Valid() && b.Valid() && b.pn.Length == pn.Length
      modifies pn
      ensures Valid() && Value() == (old(Value()) - old(b.Value())) % Size()
    {
      var neg := b.Negate();
      ghost var x, y := Value(), b.Value();
      ValBound(b.pn[..]);
      AddWith(neg);
      SubWraps(x, y, Size());
    }

    method MulWord(c: nat)
      requires Valid() && c < B
      modifies pn
      ensures Valid() && Value() == (c * old(Value())) % Size()
    {
      ghost var was := pn[..];
      var carry: nat, i: nat := 0, 0;
      while i < pn.Length
        invariant i <= pn.Length && Valid() && carry < B
        invariant Carried(pn[..], i, carry, ScaledTo(c, was, i))
        invariant forall j :: i <= j < pn.Length ==> pn[j] == was[j]
      {
        var lo, hi := MulAdd(c, pn[i], carry, 0);
        ScaleOn(was, c, pn[..], i, carry, lo, hi);
        Store(i, lo);
        carry := hi;
        i := i + 1;
      }
      assert was[..i] == was;
      CarryOut(pn[..], carry, ScaledTo(c, was, i));
    }

    method SetZero()
      requires Valid()
      modifies pn
      ensures Valid() && Value() == 0 && forall i :: 0 <= i < pn.Length ==> pn[i] == 0
    {
      var i := 0;
      while i < pn.Length
        invariant 0 <= i <= pn.Length && Valid()
        invariant forall j :: 0 <= j < i ==> pn[j] == 0
      {
        Store(i, 0);
        i := i + 1;
      }
      ValZeros(pn[..]);
    }

    /** One pass of the inner loop. When the factor is this very object it has just been
        cleared, and stays so. */
    method MulRow(x: nat, j: nat, b: BaseUint) returns (ghost carry: nat)
      requires Valid() && b.Valid() && b.pn.Length == pn.Length && x < B && j < pn.Length
      requires b.pn == pn ==> forall i :: 0 <= i < pn.Length ==> pn[i] == 0
      modifies pn
      ensures Valid() && b.pn[..] == old(b.pn[..])
      ensures Row(old(pn[..]), pn[..], b.pn[..], x, j, pn.Length - j, carry)
    {
      ghost var was, bs := pn[..], b.pn[..];
      var c: nat, i: nat := 0, 0;
      assert was[j..][..0] == [] && bs[..0] == [];
      while i + j < pn.Length
        invariant i + j <= pn.Length && Valid() && c < B && b.pn[..] == bs
        invariant b.pn == pn ==> c == 0
        invariant Row(was, pn[..], bs, x, j, i, c)
      {
        assert pn[i + j] < B && b.pn[i] < B;
        var lo, hi := MulAdd(x, b.pn[i], c, pn[i + j]);
        RowOn(was, pn[..], bs, x, j, i, c, lo, hi);
        assert b.pn == pn ==> lo == 0 && hi == 0 by {
          assert b.pn == pn ==> bs[i] == 0 && bs[i + j] == 0;
        }
        Store(i + j, lo);
        c := hi;
        i := i + 1;
      }
      carry := c;
    }

    /** The product. Multiplying an object by itself in place gives zero, because the
        factor is cleared with the result; any other factor gives the product. */
    method MulWith(b: BaseUint)
      requires Valid() && b.Valid() && b.pn.Length == pn.Length
      modifies pn
      ensures Valid()
      ensures Value() == if b.pn == pn then 0 else (old(Value()) * old(b.Value())) % Size()
    {
      var a := pn[..];
      SetZero();
      ghost var bs := b.pn[..];
      ghost var excess: nat := 0;
      assert a[..0] == [];
      var j: nat := 0;
      while j < pn.Length
        invariant j <= pn.Length && Valid() && b.pn[..] == bs && b.pn.Length == pn.Length
        invariant Rows(pn[..], a, bs, j, excess)
      {
        ghost var was := pn[..];
        ghost var carry := MulRow(a[j], j, b);
        RowsOn(was, pn[..], a, bs, j, excess, carry);
        excess := excess + RowExcess(bs, a[j], j, carry);
        j := j + 1;
      }
      RowsDone(pn[..], a, bs, excess);
    }

    /** The step of the left shift for one word. */
    method StepLeft(a: seq<nat>, k: nat, s: nat, i: nat)
      requires i < |a| == pn.Length && s < 32
      modifies pn
      ensures pn[..] == MoveLeft(a, SpillLeft(a, old(pn[..]), k, s, i), k, s, i)
    {
      if i + k + 1 < pn.Length && s != 0 {
        Write(i + k + 1, Or(pn[i + k + 1], HighBits(a[i], 32 - s)));
      }
      if i + k < pn.Length {
        Write(i + k, Or(pn[i + k], ShiftedWord(a[i], s)));
      }
    }

    method ShiftLeft(shift: nat)
      requires Valid()
      modifies pn
      ensures Valid() && Value() == (old(Value()) * Pow2(shift)) % Size()
    {
      var a := pn[..];
      SetZero();
      var k, s: nat := shift / 32, shift % 32;
      var i: nat := 0;
      LeftStart(a, pn[..], k, s);
      while i < pn.Length
        invariant i <= pn.Length && LeftDone(a, pn[..], k, s, i)
      {
        LeftOn(a, pn[..], k, s, i);
        StepLeft(a, k, s, i);
        i := i + 1;
      }
      LeftEnd(a, pn[..], k, s);
      LeftFits(a, k, s);
      LeftIsTimes(a, k, s);
    }

    method StepRight(a: seq<nat>, k: nat, s: nat, i: nat)
      requires i < |a| == pn.Length && s < 32
      modifies pn
      ensures pn[..] == MoveRight(a, SpillRight(a, old(pn[..]), k, s, i), k, s, i)
    {
      if i - k - 1 >= 0 && s != 0 {
        Write(i - k - 1, Or(pn[i - k - 1], ShiftedWord(a[i], 32 - s)));
      }
      if i - k >= 0 {
        Write(i - k, Or(pn[i - k], HighBits(a[i], s)));
      }
    }

    method ShiftRight(shift: nat)
      requires Valid()
      modifies pn
      ensures Valid() && Value() == HighBits(old(Value()), shift) == old(Value()) / Pow2(shift)
    {
      var a := pn[..];
      SetZero();
      var k, s: nat := shift / 32, shift % 32;
      var i: nat := 0;
      while i < pn.Length
        invariant i <= pn.Length && RightDone(a, pn[..], k, s, i)
      {
        RightOn(a, pn[..], k, s, i);
        StepRight(a, k, s, i);
        i := i + 1;
      }
      RightEnd(a, pn[..], k, s);
      RightFits(a, k, s);
      RightIsHigh(a, k, s);
      BitsDivide(Val(a), shift);
    }

    /** The sign of the difference, from the top word down. */
    method CompareTo(b: BaseUint) returns (r: int)
      requires Valid() && b.Valid() && b.pn.Length == pn.Length
      ensures r == if Value() < b.Value() then -1 else if Value() > b.Value() then 1 else 0
    {
      var i := pn.Length - 1;
      while i >= 0
        invariant -1 <= i < pn.Length && forall j :: i < j < pn.Length ==> pn[j] == b.pn[j]
      {
        if pn[i] < b.pn[i] {
          SameAbove(pn[..], b.pn[..], i);
          return -1;
        }
        if pn[i] > b.pn[i] {
          SameAbove(b.pn[..], pn[..], i);
          return 1;
        }
        i := i - 1;
      }
      assert pn[..] == b.pn[..];
      return 0;
    }

    /** One more than the position of the highest bit that is set, or zero. */
    method Bits() returns (r: nat)
      requires Valid()
      ensures r <= 32 * pn.Length && Value() < Pow2(r)
      ensures r == 0 <==> Value() == 0
      ensures r > 0 ==> Value() >= Pow2(r - 1)
    {
      var pos := pn.Length - 1;
      while pos >= 0
        invariant -1 <= pos < pn.Length
        invariant forall j :: pos < j < pn.Length ==> pn[j] == 0
      {
        if pn[pos] != 0 {
          var nbits := TopBit(pn[pos]);
          TopWord(pn[..], pos, nbits);
          return 32 * pos + nbits + 1;
        }
        pos := pos - 1;
      }
      ValZeros(pn[..]);
      return 0;
    }

    /** One step of the division: `this` is the quotient so far. */
    method DivideBit(num: BaseUint, div: BaseUint, shift: nat, ghost n: nat, ghost d: nat)
      requires Valid() && num.Valid() && div.Valid()
      requires num.pn.Length == div.pn.Length == pn.Length && shift < 32 * pn.Length
      requires pn != num.pn && pn != div.pn && num.pn != div.pn
      requires Dividing(n, d, Value(), num.Value(), div.Value(), shift) && LowClear(pn[..], shift + 1)
      modifies pn, num.pn, div.pn
      ensures Valid() && num.Valid() && div.Valid()
      ensures Dividing(n, d, Value(), num.Value(), div.Value(), shift - 1) && LowClear(pn[..], shift)
    {
      DivideStep(n, d, Value(), num.Value(), div.Value(), shift);
      var c := num.CompareTo(div);
      if c >= 0 {
        ValBound(num.pn[..]);
        DivModIs(num.Value() - div.Value(), Size(), 0, num.Value() - div.Value());
        num.SubWith(div);
        var x := Or(pn[shift / 32], Pow2(shift % 32));
        SetBit(pn[..], shift, x);
        Store(shift / 32, x);
      } else {
        KeepBit(pn[..], shift);
      }
      div.ShiftRight(1);
    }

    /** The quotient, or a refusal when the divisor is zero. */
    method DivWith(b: BaseUint) returns (ok: bool)
      requires Valid() && b.Valid() && b.pn.Length == pn.Length
      modifies pn
      ensures Valid()
      ensures ok <==> old(b.Value()) != 0
      ensures Value() == if ok then old(Value()) / old(b.Value()) else 0
    {
      var div := new BaseUint.Copy(b);
      var num := new BaseUint.Copy(this);
      ghost var n, d := Value(), b.Value();
      SetZero();
      var numBits := num.Bits();
      var divBits := div.Bits();
      if divBits == 0 {
        return false;
      }
      if divBits > numBits {
        QuotientZero(n, d, numBits, divBits);
        return true;
      }
      DivideAligned(num, div, numBits, divBits, n, d);
      return true;
    }

    method DivideAligned(num: BaseUint, div: BaseUint, numBits: nat, divBits: nat, ghost n: nat, ghost d: nat)
      requires Valid() && num.Valid() && div.Valid() && Value() == 0 && num.Value() == n && div.Value() == d
      requires num.pn.Length == div.pn.Length == pn.Length && numBits <= 32 * pn.Length
      requires pn != num.pn && pn != div.pn && num.pn != div.pn
      requires forall i :: 0 <= i < pn.Length ==> pn[i] == 0
      requires 0 < divBits <= numBits && n < Pow2(numBits) && Pow2(divBits - 1) <= d < Pow2(divBits)
      modifies pn, num.pn, div.pn
      ensures Valid() && d > 0 && Value() == n / d
    {
      Align(div, numBits, divBits, n, d);
      AllClear(pn[..], numBits - divBits + 1);
      DivideBits(num, div, numBits - divBits, n, d);
    }

    /** The divisor moved up to the top bit of the number. */
    method Align(div: BaseUint, numBits: nat, divBits: nat, ghost n: nat, ghost d: nat)
      requires div.Valid() && div.Value() == d && numBits <= 32 * div.pn.Length
      requires 0 < divBits <= numBits && n < Pow2(numBits) && Pow2(divBits - 1) <= d < Pow2(divBits)
      modifies div.pn
      ensures div.Valid() && Dividing(n, d, 0, n, div.Value(), numBits - divBits)
    {
      var shift := numBits - divBits;
      DivideStart(n, d, numBits, divBits);
      AlignFits(div.pn.Length, numBits, d * Pow2(shift));
      div.ShiftLeft(shift);
    }

    /** The shift-and-subtract loop, from the aligned divisor down. */
    method DivideBits(num: BaseUint, div: BaseUint, top: nat, ghost n: nat, ghost d: nat)
      requires Valid() && num.Valid() && div.Valid() && d > 0
      requires num.pn.Length == div.pn.Length == pn.Length && top < 32 * pn.Length
      requires pn != num.pn && pn != div.pn && num.pn != div.pn
      requires Dividing(n, d, Value(), num.Value(), div.Value(), top) && LowClear(pn[..], top + 1)
      modifies pn, num.pn, div.pn
      ensures Valid() && Value() == n / d && num.Value() == n % d
    {
      var shift: int := top;
      while shift >= 0
        invariant -1 <= shift < 32 * pn.Length && Valid() && num.Valid() && div.Valid()
        invariant Dividing(n, d, Value(), num.Value(), div.Value(), shift) && LowClear(pn[..], shift + 1)
      {
        DivideBit(num, div, shift, n, d);
        shift := shift - 1;
      }
      DivModIs(n, d, Value(), num.Value());
    }

    /** A 64-bit number in the two lowest words. */
    method Assign(b: nat)
      requires Valid() && pn.Length >= 2 && b < B * B
      modifies pn
      ensures Valid() && Value() == b
    {
      SetZero();
      Store(0, b % B);
      Store(1, b / B);
      TwoWords(pn[..]);
    }

    method EqualTo(b: nat) returns (r: bool)
      requires Valid() && pn.Length >= 2 && b < B * B
      ensures r <==> Value() == b
    {
      var i := pn.Length - 1;
      LowWords(pn[..]);
      DivModIs(b, B * B, 0, b);
      while i >= 2
        invariant 1 <= i < pn.Length && forall j :: i < j < pn.Length ==> pn[j] == 0
      {
        if pn[i] != 0 {
          HighWord(pn[..], i);
          return false;
        }
        i := i - 1;
      }
      TwoWords(pn[..]);
      return pn[1] == b / B && pn[0] == b % B;
    }

    method Low64() returns (r: nat)
      requires Valid() && pn.Length >= 2
      ensures r == Value() % (B * B)
    {
      r := Or(pn[0], pn[1] * B);
      LowWords(pn[..]);
      JoinWords(pn[0], pn[1]);
    }
  }

  /** One times itself in place, in eight words. */
  method SquareOfOne() returns (before: seq<nat>, after: seq<nat>)
    ensures |before| == 8 && Val(before) == 1
    ensures |after| == 8 && Val(after) == 0
  {
    var x := new BaseUint(8);
    x.Increment();
    before := x.pn[..];
    x.MulWith(x);
    after := x.pn[..];
  }
}

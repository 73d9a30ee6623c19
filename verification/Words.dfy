/** Little-endian sequences of 32-bit words, the numbers they stand for, and what
    shifting their bits does to those numbers. */
module Words {
  import opened Numbers

  const B: nat := 0x1_0000_0000

  ghost predicate AllWords(s: seq<nat>) {
    forall i :: 0 <= i < |s| ==> s[i] < B
  }

  function Mod(n: nat): (r: nat)
    ensures r >= 1
  {
    if n == 0 then 1 else B * Mod(n - 1)
  }

  function Val(s: seq<nat>): nat {
    if s == [] then 0 else s[0] + B * Val(s[1..])
  }

  lemma {:induction false} ModAdd(a: nat, b: nat)
    ensures Mod(a + b) == Mod(a) * Mod(b)
  {
    if a > 0 {
      ModAdd(a - 1, b);
      assert B * (Mod(a - 1) * Mod(b)) == (B * Mod(a - 1)) * Mod(b);
    }
  }

  lemma WordPow()
    ensures Pow2(32) == B
  {
    Power32(32);
  }

  lemma {:induction false} ModIsPow(n: nat)
    ensures Mod(n) == Pow2(32 * n)
  {
    if n > 0 {
      ModIsPow(n - 1);
      WordPow();
      Pow2Add(32, 32 * (n - 1));
    }
  }

  lemma {:induction false} ValSnoc(s: seq<nat>, x: nat)
    ensures Val(s + [x]) == Val(s) + x * Mod(|s|)
  {
    if s == [] {
      assert [x][1..] == [];
    } else {
      ValSnoc(s[1..], x);
      assert (s + [x])[1..] == s[1..] + [x];
      assert B * (x * Mod(|s| - 1)) == x * Mod(|s|);
    }
  }

  lemma ValPrefix(s: seq<nat>, i: nat)
    requires i < |s|
    ensures Val(s[..i + 1]) == Val(s[..i]) + s[i] * Mod(i)
  {
    ValSnoc(s[..i], s[i]);
    assert s[..i + 1] == s[..i] + [s[i]];
  }

  lemma {:induction false} ValBound(s: seq<nat>)
    requires AllWords(s)
    ensures Val(s) < Mod(|s|)
  {
    if s != [] {
      ValBound(s[1..]);
    }
  }

  lemma {:induction false} ValSplit(s: seq<nat>, i: nat)
    requires i <= |s|
    ensures Val(s) == Val(s[..i]) + Mod(i) * Val(s[i..])
  {
    if i > 0 {
      ValSplit(s[1..], i - 1);
      assert s[1..][..i - 1] == s[..i][1..];
      assert s[1..][i - 1..] == s[i..];
      assert B * (Mod(i - 1) * Val(s[i..])) == Mod(i) * Val(s[i..]);
    } else {
      assert s[0..] == s;
    }
  }

  lemma {:induction false} ValZeros(s: seq<nat>)
    ensures Val(s) == 0 <==> forall i :: 0 <= i < |s| ==> s[i] == 0
  {
    if s != [] {
      ValZeros(s[1..]);
      if forall i :: 0 <= i < |s| ==> s[i] == 0 {
        forall i | 0 <= i < |s| - 1
          ensures s[1..][i] == 0
        {
          assert s[i + 1] == 0;
        }
      }
      if Val(s) == 0 {
        forall i | 0 <= i < |s|
          ensures s[i] == 0
        {
          assert i > 0 ==> s[i] == s[1..][i - 1];
        }
      }
    }
  }

  /** Numbers that agree above a position are ordered by the word at it. */
  lemma {:induction false} ValOrder(a: seq<nat>, b: seq<nat>, i: nat)
    requires |a| == |b| && AllWords(a) && AllWords(b) && i < |a|
    requires a[i + 1..] == b[i + 1..] && a[i] < b[i]
    ensures Val(a) < Val(b)
  {
    if i == 0 {
    } else {
      ValOrder(a[1..], b[1..], i - 1);
    }
  }

  // ----- shifting left

  /** What a word keeps of its bits when they move up by `s`. */
  function ShiftedWord(word: nat, s: nat): nat
    requires s <= 32
  {
    LowBits(word, 32 - s) * Pow2(s)
  }

  /** What it loses to the word above. */
  function SpilledWord(word: nat, s: nat): nat
    requires s <= 32
  {
    HighBits(word, 32 - s)
  }

  function LeftWord(a: seq<nat>, k: nat, s: nat, m: nat): nat
    requires s < 32
  {
    (if k <= m < |a| + k then ShiftedWord(a[m - k], s) else 0)
    + (if k + 1 <= m < |a| + k + 1 then SpilledWord(a[m - k - 1], s) else 0)
  }

  function LeftWords(a: seq<nat>, k: nat, s: nat): seq<nat>
    requires s < 32
  {
    seq(|a|, m requires m >= 0 => LeftWord(a, k, s, m))
  }

  /** A word cut at a bit position: nothing is lost between the two parts. */
  lemma WordParts(x: nat, s: nat)
    requires s <= 32
    ensures ShiftedWord(x, s) + SpilledWord(x, s) * B == x * Pow2(s)
    ensures ShiftedWord(x, s) + Pow2(s) <= B
  {
    WordPow();
    Pow2Add(s, 32 - s);
    BitsSplit(x, 32 - s);
    Parts(x, Pow2(s), Pow2(32 - s), HighBits(x, 32 - s), LowBits(x, 32 - s));
    BelowProduct(LowBits(x, 32 - s), Pow2(32 - s), Pow2(s));
  }

  lemma Parts(x: nat, p: nat, q: nat, d: nat, r: nat)
    requires p * q == B && x == d * q + r
    ensures r * p + d * B == x * p
  {
    assert x * p == (d * q) * p + r * p;
    assert (d * q) * p == d * (p * q);
  }

  lemma {:induction false} LeftPrefix(a: seq<nat>, k: nat, s: nat, m: nat)
    requires m <= |a| && s < 32
    ensures m <= k ==> Val(LeftWords(a, k, s)[..m]) == 0
    ensures k < m ==>
      Val(LeftWords(a, k, s)[..m]) + SpilledWord(a[m - k - 1], s) * Mod(m) == Pow2(s) * Mod(k) * Val(a[..m - k])
  {
    var w := LeftWords(a, k, s);
    if m > 0 {
      LeftPrefix(a, k, s, m - 1);
      if m <= k {
        ValPrefix(w, m - 1);
      } else {
        LeftPrefixOn(a, k, s, m - k - 1);
      }
    }
  }

  lemma LeftPrefixOn(a: seq<nat>, k: nat, s: nat, j: nat)
    requires s < 32 && j + k < |a|
    requires j == 0 ==> Val(LeftWords(a, k, s)[..k]) == 0
    requires j > 0 ==>
      Val(LeftWords(a, k, s)[..j + k]) + SpilledWord(a[j - 1], s) * Mod(j + k) == Pow2(s) * Mod(k) * Val(a[..j])
    ensures Val(LeftWords(a, k, s)[..j + k + 1]) + SpilledWord(a[j], s) * Mod(j + k + 1)
         == Pow2(s) * Mod(k) * Val(a[..j + 1])
  {
    var w := LeftWords(a, k, s);
    ValPrefix(w, j + k);
    ValPrefix(a, j);
    ModAdd(j, k);
    WordParts(a[j], s);
    var carry := if j > 0 then SpilledWord(a[j - 1], s) else 0;
    assert w[j + k] == ShiftedWord(a[j], s) + carry;
    LeftStep(a[j], Pow2(s), ShiftedWord(a[j], s), SpilledWord(a[j], s), Mod(k), Mod(j), carry,
             Val(w[..j + k]), Val(a[..j]));
  }

  lemma LeftStep(x: nat, p: nat, lo: nat, hi: nat, mk: nat, mj: nat, carry: nat, w: nat, v: nat)
    requires lo + hi * B == x * p && w + carry * (mj * mk) == p * mk * v
    ensures w + (lo + carry) * (mj * mk) + hi * (B * (mj * mk)) == p * mk * (v + x * mj)
  {
    var m := mj * mk;
    assert (lo + hi * B) * m == lo * m + hi * (B * m);
    assert (x * p) * m == p * mk * (x * mj);
    assert (lo + carry) * m == lo * m + carry * m;
    assert p * mk * (v + x * mj) == p * mk * v + p * mk * (x * mj);
  }

  lemma BelowProduct(r: nat, q: nat, p: nat)
    requires r < q && p > 0
    ensures p * r + p <= p * q
  {
    MulMonotone(r + 1, q, p);
  }

  lemma SpillIsSmall(x: nat, s: nat)
    requires s <= 32 && x < B
    ensures SpilledWord(x, s) < Pow2(s)
  {
    WordPow();
    HighBitsBelow(x, s, 32 - s);
  }

  lemma LeftFits(a: seq<nat>, k: nat, s: nat)
    requires AllWords(a) && s < 32
    ensures AllWords(LeftWords(a, k, s))
  {
    forall m | 0 <= m < |a|
      ensures LeftWord(a, k, s, m) < B
    {
      if k <= m {
        WordParts(a[m - k], s);
        if k < m {
          SpillIsSmall(a[m - k - 1], s);
        }
      }
    }
  }

  /** Shifting words left multiplies, modulo the size of the number. */
  lemma LeftIsTimes(a: seq<nat>, k: nat, s: nat)
    requires AllWords(a) && s < 32
    ensures Val(LeftWords(a, k, s)) == (Val(a) * Pow2(32 * k + s)) % Mod(|a|)
  {
    var n, p := |a|, Pow2(s);
    var w := LeftWords(a, k, s);
    LeftFits(a, k, s);
    ValBound(w);
    LeftPrefix(a, k, s, n);
    assert w[..n] == w;
    ModIsPow(k);
    Pow2Add(32 * k, s);
    if n <= k {
      ModAdd(n, k - n);
      AllSpilled(Val(a), Mod(n), Mod(k - n), p);
    } else {
      ValSplit(a, n - k);
      ModAdd(k, n - k);
      LeftWhole(Val(a), Val(a[..n - k]), Val(a[n - k..]), Mod(n - k), Mod(k), p, Val(w), SpilledWord(a[n - k - 1], s));
    }
  }

  lemma AllSpilled(v: nat, m: nat, rest: nat, p: nat)
    requires m > 0
    ensures (v * ((m * rest) * p)) % m == 0
  {
    assert v * ((m * rest) * p) == (v * rest * p) * m;
    DivModIs(v * ((m * rest) * p), m, v * rest * p, 0);
  }

  lemma LeftWhole(v: nat, low: nat, high: nat, mh: nat, mk: nat, p: nat, w: nat, spill: nat)
    requires v == low + mh * high && w + spill * (mk * mh) == p * mk * low && w < mk * mh
    ensures (v * (mk * p)) % (mk * mh) == w
  {
    Gather(v, low, high, mh, mk, p, w, spill);
    DivModIs(v * (mk * p), mk * mh, spill + p * high, w);
  }

  lemma Gather(v: nat, low: nat, high: nat, mh: nat, mk: nat, p: nat, w: nat, spill: nat)
    requires v == low + mh * high && w + spill * (mk * mh) == p * mk * low
    ensures v * (mk * p) == (spill + p * high) * (mk * mh) + w
  {
    assert v * (mk * p) == low * (mk * p) + (mh * high) * (mk * p);
    assert (mh * high) * (mk * p) == (p * high) * (mk * mh);
    assert low * (mk * p) == p * mk * low;
    assert (spill + p * high) * (mk * mh) == spill * (mk * mh) + (p * high) * (mk * mh);
  }

  // ----- shifting right

  function RightWord(a: seq<nat>, k: nat, s: nat, m: nat): nat
    requires s < 32
  {
    (if m + k < |a| then HighBits(a[m + k], s) else 0)
    + (if m + k + 1 < |a| then ShiftedWord(a[m + k + 1], 32 - s) else 0)
  }

  function RightWords(a: seq<nat>, k: nat, s: nat): seq<nat>
    requires s < 32
  {
    seq(|a|, m requires m >= 0 => RightWord(a, k, s, m))
  }

  lemma RightWordIs(a: seq<nat>, s: nat)
    requires s < 32 && a != []
    ensures HighBits(Val(a), s) == RightWord(a, 0, s, 0) + B * HighBits(Val(a[1..]), s)
  {
    var rest := a[1..];
    RightStep(a[0], Val(rest), if rest == [] then 0 else rest[0], if rest == [] then 0 else Val(rest[1..]), s);
  }

  lemma RightWordMoves(a: seq<nat>, k: nat, s: nat, j: nat)
    requires s < 32 && j + k < |a|
    ensures RightWord(a, k, s, j) == RightWord(a[j + k..], 0, s, 0)
  {
  }

  /** Dividing a number of several words, top word by top word. */
  lemma {:induction false} RightSuffix(a: seq<nat>, k: nat, s: nat, j: nat)
    requires s < 32 && j + k <= |a|
    ensures Val(RightWords(a, k, s)[j..|a| - k]) == HighBits(Val(a[j + k..]), s)
    decreases |a| - j
  {
    var w := RightWords(a, k, s)[j..|a| - k];
    if j + k < |a| {
      RightSuffix(a, k, s, j + 1);
      assert w[1..] == RightWords(a, k, s)[j + 1..|a| - k];
      RightWordMoves(a, k, s, j);
      RightWordIs(a[j + k..], s);
      assert a[j + k..][1..] == a[j + k + 1..];
    } else {
      assert a[j + k..] == [];
      BitsAre(0, s, 0, 0);
    }
  }

  lemma RightTop(a: seq<nat>, k: nat, s: nat)
    requires s < 32
    ensures k <= |a| ==> Val(RightWords(a, k, s)) == Val(RightWords(a, k, s)[..|a| - k])
    ensures k > |a| ==> Val(RightWords(a, k, s)) == 0
  {
    var w := RightWords(a, k, s);
    var n := if k <= |a| then |a| - k else 0;
    ValSplit(w, n);
    ValZeros(w[n..]);
  }

  lemma RightStep(x: nat, y: nat, y0: nat, z: nat, s: nat)
    requires s < 32 && y == y0 + B * z
    ensures HighBits(x + B * y, s) == HighBits(x, s) + ShiftedWord(y0, 32 - s) + B * HighBits(y, s)
  {
    assert LowBits(y, s) == LowBits(y0, s) by {
      WordPow();
      LowBitsOfSum(y0, z, 32, s);
    }
    assert x + B * y == (HighBits(x, s) + ShiftedWord(y, 32 - s) + B * HighBits(y, s)) * Pow2(s) + LowBits(x, s) by {
      WordPow();
      Pow2Add(32 - s, s);
      BitsSplit(x, s);
      BitsSplit(y, s);
      DivideOnce(x, y, Pow2(s), Pow2(32 - s), HighBits(x, s), LowBits(x, s), HighBits(y, s), LowBits(y, s));
    }
    BitsSplit(x, s);
    BitsAre(x + B * y, s, HighBits(x, s) + ShiftedWord(y, 32 - s) + B * HighBits(y, s), LowBits(x, s));
  }

  lemma DivideOnce(x: nat, y: nat, p: nat, q: nat, e: nat, f: nat, d: nat, r: nat)
    requires q * p == B && x == e * p + f && y == d * p + r
    ensures x + B * y == (e + r * q + B * d) * p + f
  {
    assert B * y == (q * y) * p;
    assert q * y == q * (d * p) + r * q;
    assert q * (d * p) == B * d;
    assert (e + q * y) * p == e * p + (q * y) * p;
  }

  /** Shifting words right drops the bits below. */
  lemma RightIsHigh(a: seq<nat>, k: nat, s: nat)
    requires AllWords(a) && s < 32
    ensures Val(RightWords(a, k, s)) == HighBits(Val(a), 32 * k + s)
  {
    RightTop(a, k, s);
    if k <= |a| {
      RightSuffix(a, k, s, 0);
      assert RightWords(a, k, s)[0..|a| - k] == RightWords(a, k, s)[..|a| - k];
      DropWords(a, k);
      HighBitsTwice(Val(a), 32 * k, s);
    } else {
      AllDropped(a, 32 * k + s);
    }
  }

  lemma {:induction false} DropWords(a: seq<nat>, k: nat)
    requires AllWords(a) && k <= |a|
    ensures HighBits(Val(a), 32 * k) == Val(a[k..])
  {
    if k == 0 {
      assert a[0..] == a;
    } else {
      WordPow();
      BitsAre(Val(a), 32, Val(a[1..]), a[0]);
      DropWords(a[1..], k - 1);
      HighBitsTwice(Val(a), 32, 32 * (k - 1));
      assert a[1..][k - 1..] == a[k..];
    }
  }

  lemma AllDropped(a: seq<nat>, n: nat)
    requires AllWords(a) && n >= 32 * |a|
    ensures HighBits(Val(a), n) == 0
  {
    ValBound(a);
    ModIsPow(|a|);
    Pow2Monotone(32 * |a|, n);
    BitsAre(Val(a), n, 0, Val(a));
  }

  lemma RightFits(a: seq<nat>, k: nat, s: nat)
    requires AllWords(a) && s < 32
    ensures AllWords(RightWords(a, k, s))
  {
    forall m | 0 <= m < |a|
      ensures RightWord(a, k, s, m) < B
    {
      if m + k < |a| {
        SpillIsSmall(a[m + k], 32 - s);
        HighBitsAtMost(a[m + k], s);
        assert SpilledWord(a[m + k], 32 - s) == HighBits(a[m + k], s);
        if m + k + 1 < |a| {
          WordParts(a[m + k + 1], 32 - s);
        }
      }
    }
  }
}

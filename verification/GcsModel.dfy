/** Golomb-coded sets: sorted numbers as the Golomb-Rice codes of their differences. */
module GcsModel {
  import opened Numbers
  import opened Wrappers
  import opened BitStrings

  const M32: nat := 0x1_0000_0000
  const M64: nat := 0x1_0000_0000_0000_0000

  // ----- hashes in a range

  /** The upper half of a product of two 64-bit numbers, from products of 32-bit halves. */
  function MapIntoRange(x: nat, n: nat): nat {
    var ac := (x / M32) * (n / M32);
    var ad := (x / M32) * (n % M32);
    var bc := (x % M32) * (n / M32);
    var bd := (x % M32) * (n % M32);
    var mid34 := bd / M32 + bc % M32 + ad % M32;
    ac + bc / M32 + ad / M32 + mid34 / M32
  }

  lemma UpperHalf(v: nat, ac: nat, ad: nat, bc: nat, bd: nat)
    requires v == ac * M64 + (ad + bc) * M32 + bd
    ensures v / M64 == ac + bc / M32 + ad / M32 + (bd / M32 + bc % M32 + ad % M32) / M32
  {
    var mid := bd / M32 + bc % M32 + ad % M32;
    assert v == (ac + bc / M32 + ad / M32 + mid / M32) * M64 + (mid % M32) * M32 + bd % M32;
  }

  lemma HalvesProduct(xh: nat, xl: nat, nh: nat, nl: nat)
    ensures (xh * M32 + xl) * (nh * M32 + nl) == (xh * nh) * M64 + (xh * nl + xl * nh) * M32 + xl * nl
  {
    assert (xh * M32 + xl) * (nh * M32 + nl)
        == (xh * M32) * (nh * M32) + (xh * M32) * nl + xl * (nh * M32) + xl * nl;
    assert (xh * M32) * (nh * M32) == (xh * nh) * M64;
    assert (xh * M32) * nl == (xh * nl) * M32;
    assert xl * (nh * M32) == (xl * nh) * M32;
  }

  /** The pieces give the exact upper half, which lies below the range. */
  lemma MapIntoRangeIs(x: nat, n: nat)
    requires x < M64
    ensures MapIntoRange(x, n) == (x * n) / M64
    ensures n > 0 ==> MapIntoRange(x, n) < n
  {
    HalvesProduct(x / M32, x % M32, n / M32, n % M32);
    UpperHalf(x * n, (x / M32) * (n / M32), (x / M32) * (n % M32), (x % M32) * (n / M32), (x % M32) * (n % M32));
    if n > 0 {
      MulMonotone(x, M64 - 1, n);
      Below(x * n, n);
    }
  }

  lemma Below(v: nat, n: nat)
    requires n > 0 && v <= (M64 - 1) * n
    ensures v / M64 < n
  {
  }

  // ----- one number

  /** A quotient in ones, a zero, and the remainder in p bits. */
  function Rice(x: nat, p: nat): seq<bool> {
    Repeat(true, HighBits(x, p)) + [false] + BitsOf(x, p)
  }

  /** The code, bit by bit: as many ones as the quotient, a zero, and the remainder from its
      highest bit down. */
  lemma RiceIs(x: nat, p: nat, k: nat)
    requires k < |Rice(x, p)|
    ensures var q := x / Pow2(p);
      && |Rice(x, p)| == q + 1 + p
      && (Rice(x, p)[k] <==> if k <= q then k < q else x / Pow2(p + q - k) % 2 == 1)
  {
    BitsDivide(x, p);
    RiceBit(x, p, HighBits(x, p), k);
  }

  lemma RiceBit(x: nat, p: nat, q: nat, k: nat)
    requires q == HighBits(x, p) && k < |Rice(x, p)|
    ensures |Rice(x, p)| == q + 1 + p
    ensures Rice(x, p)[k] <==> if k <= q then k < q else x / Pow2(p + q - k) % 2 == 1
  {
    if k > q {
      var j := k - q - 1;
      BitAt(x, p, j);
      assert Rice(x, p)[k] == BitsOf(x, p)[j];
    }
  }

  function LeadingOnes(bits: seq<bool>): (n: nat)
    ensures n <= |bits| && (n < |bits| ==> !bits[n]) && forall i :: 0 <= i < n ==> bits[i]
  {
    if bits == [] || !bits[0] then 0 else 1 + LeadingOnes(bits[1..])
  }

  lemma {:induction false} LeadingOnesIs(n: nat, rest: seq<bool>)
    requires rest != [] && !rest[0]
    ensures LeadingOnes(Repeat(true, n) + rest) == n
  {
    var bits := Repeat(true, n) + rest;
    if n > 0 {
      LeadingOnesIs(n - 1, rest);
      assert bits[1..] == Repeat(true, n - 1) + rest;
    }
  }

  /** The length of the code at the front of a bit string, if it is all there. */
  function CodeLength(bits: seq<bool>, p: nat): nat {
    LeadingOnes(bits) + 1 + p
  }

  /** Its number, with 64-bit wrap-around. */
  function CodeValue(bits: seq<bool>, p: nat): nat
    requires CodeLength(bits, p) <= |bits|
  {
    var q := LeadingOnes(bits);
    (Product(q, Pow2(p)) + NumberOf(bits[q + 1..q + 1 + p])) % M64
  }

  lemma RiceParts(q: nat, body: seq<bool>, tail: seq<bool>)
    ensures var bits := Repeat(true, q) + [false] + body + tail;
      && LeadingOnes(bits) == q && bits[q + 1..q + 1 + |body|] == body && bits[q + 1 + |body|..] == tail
  {
    var bits := Repeat(true, q) + [false] + body + tail;
    assert bits == Repeat(true, q) + ([false] + body + tail);
    LeadingOnesIs(q, [false] + body + tail);
  }

  /** Reading a code gives its number and leaves what follows. */
  lemma ReadRice(x: nat, p: nat, tail: seq<bool>)
    requires x < M64
    ensures var bits := Rice(x, p) + tail;
      && CodeLength(bits, p) == |Rice(x, p)| <= |bits|
      && CodeValue(bits, p) == x && bits[CodeLength(bits, p)..] == tail
  {
    RiceParts(HighBits(x, p), BitsOf(x, p), tail);
    CodeIs(Rice(x, p) + tail, p, HighBits(x, p), BitsOf(x, p));
    RiceNumber(x, p);
    Below64(x);
  }

  lemma CodeIs(bits: seq<bool>, p: nat, q: nat, body: seq<bool>)
    requires LeadingOnes(bits) == q && q + 1 + p <= |bits| && bits[q + 1..q + 1 + p] == body
    ensures CodeValue(bits, p) == (Product(q, Pow2(p)) + NumberOf(body)) % M64
  {
  }

  lemma Below64(x: nat)
    requires x < M64
    ensures x % M64 == x
  {
  }

  lemma RiceNumber(x: nat, p: nat)
    ensures Product(HighBits(x, p), Pow2(p)) + NumberOf(BitsOf(x, p)) == x
  {
    NumberOfBits(x, p);
    BitsSplit(x, p);
    ProductIs(HighBits(x, p), Pow2(p));
  }

  // ----- a list of codes

  function Codes(ds: seq<nat>, p: nat): seq<bool> {
    if ds == [] then [] else Rice(ds[0], p) + Codes(ds[1..], p)
  }

  lemma {:induction false} CodesSnoc(ds: seq<nat>, d: nat, p: nat)
    ensures Codes(ds + [d], p) == Codes(ds, p) + Rice(d, p)
  {
    if ds == [] {
      assert [d][1..] == [];
      assert Codes([d], p) == Rice(d, p) + [];
    } else {
      CodesSnoc(ds[1..], d, p);
      assert (ds + [d])[1..] == ds[1..] + [d];
      Assoc(Rice(ds[0], p), Codes(ds[1..], p), Rice(d, p));
    }
  }

  /** What follows a number of codes, if they are all there. */
  function SkipCodes(bits: seq<bool>, n: nat, p: nat): Option<seq<bool>> {
    if n == 0 then Some(bits)
    else if CodeLength(bits, p) > |bits| then None
    else SkipCodes(bits[CodeLength(bits, p)..], n - 1, p)
  }

  ghost predicate AllBelow(ds: seq<nat>, limit: nat) {
    forall i :: 0 <= i < |ds| ==> ds[i] < limit
  }

  /** The first code gives the first number, and the rest follows. */
  lemma FirstCode(ds: seq<nat>, p: nat, tail: seq<bool>)
    requires ds != [] && ds[0] < M64
    ensures var bits := Codes(ds, p) + tail;
      && CodeLength(bits, p) <= |bits| && CodeValue(bits, p) == ds[0]
      && bits[CodeLength(bits, p)..] == Codes(ds[1..], p) + tail
  {
    Assoc(Rice(ds[0], p), Codes(ds[1..], p), tail);
    ReadRice(ds[0], p, Codes(ds[1..], p) + tail);
  }

  /** A list of numbers is exactly as many codes. */
  lemma {:induction false} SkipAllCodes(ds: seq<nat>, p: nat, tail: seq<bool>)
    requires AllBelow(ds, M64)
    ensures SkipCodes(Codes(ds, p) + tail, |ds|, p) == Some(tail)
  {
    if ds == [] {
      assert [] + tail == tail;
    } else {
      FirstCode(ds, p, tail);
      SkipAllCodes(ds[1..], p, tail);
    }
  }

  lemma Assoc(a: seq<bool>, b: seq<bool>, c: seq<bool>)
    ensures (a + b) + c == a + (b + c)
  {
  }

  // ----- differences of a sorted list

  ghost predicate Sorted(s: seq<nat>) {
    forall i, j :: 0 <= i < j < |s| ==> s[i] <= s[j]
  }

  /** The value before a position. */
  function Before(values: seq<nat>, i: nat): nat
    requires i <= |values|
  {
    if i == 0 then 0 else values[i - 1]
  }

  function Differences(values: seq<nat>): (ds: seq<nat>)
    requires Sorted(values)
    ensures |ds| == |values|
    ensures forall i {:trigger ds[i]} :: 0 <= i < |ds| ==> Before(values, i) + ds[i] == values[i]
  {
    seq(|values|, i requires 0 <= i < |values| => values[i] - Before(values, i))
  }
}

/** Flags packed eight to a byte, the lowest bit first. */
module BitPacking {

  function Mask(k: nat): bv8
    requires k < 8
  {
    (1 as bv8) << k
  }

  predicate Bit(x: bv8, k: nat)
    requires k < 8
  {
    x & Mask(k) != 0
  }

  /** The lowest bit is worth one. */
  lemma MaskIs()
    ensures Mask(0) == 1 && Mask(1) == 2 && Mask(2) == 4 && Mask(3) == 8
    ensures Mask(4) == 16 && Mask(5) == 32 && Mask(6) == 64 && Mask(7) == 128
  {
  }

  /** `y` is `x` with one bit set to `v`. */
  ghost predicate Changed(x: bv8, y: bv8, k: nat, v: bool)
    requires k < 8
  {
    forall j :: 0 <= j < 8 ==> Bit(y, j) == if j == k then v else Bit(x, j)
  }

  lemma OrBit(x: bv8, k: nat, j: nat)
    requires k < 8 && j < 8
    ensures Bit(x | Mask(k), j) == (j == k || Bit(x, j))
  {
  }

  lemma AndBit(x: bv8, k: nat, j: nat)
    requires k < 8 && j < 8
    ensures Bit(x & !Mask(k), j) == (j != k && Bit(x, j))
  {
  }

  method OrMask(x: bv8, k: nat) returns (y: bv8)
    requires k < 8
    ensures Changed(x, y, k, true)
  {
    y := x | Mask(k);
    forall j | 0 <= j < 8 ensures Bit(y, j) == (j == k || Bit(x, j)) {
      OrBit(x, k, j);
    }
  }

  method AndNotMask(x: bv8, k: nat) returns (y: bv8)
    requires k < 8
    ensures Changed(x, y, k, false)
  {
    y := x & !Mask(k);
    forall j | 0 <= j < 8 ensures Bit(y, j) == (j != k && Bit(x, j)) {
      AndBit(x, k, j);
    }
  }

  lemma AllBits()
    ensures forall j :: 0 <= j < 8 ==> Bit(0xFF, j)
  {
  }

  lemma NoBits()
    ensures forall j :: 0 <= j < 8 ==> !Bit(0, j)
  {
  }

  ghost predicate Packed(mem: seq<bv8>, bits: seq<bool>) {
    |bits| <= 8 * |mem| && forall i {:trigger PackedAt(mem, bits, i)} :: 0 <= i < |bits| ==> PackedAt(mem, bits, i)
  }

  ghost predicate PackedAt(mem: seq<bv8>, bits: seq<bool>, i: nat)
    requires i < |bits| <= 8 * |mem|
  {
    bits[i] == Bit(mem[i / 8], i % 8)
  }

  lemma PackedUpdate(mem: seq<bv8>, bits: seq<bool>, s: nat, y: bv8, v: bool)
    requires Packed(mem, bits) && s < |bits| && Changed(mem[s / 8], y, s % 8, v)
    ensures Packed(mem[s / 8 := y], bits[s := v])
  {
    var mem', bits' := mem[s / 8 := y], bits[s := v];
    forall i | 0 <= i < |bits| ensures PackedAt(mem', bits', i) {
      assert PackedAt(mem, bits, i);
      assert i / 8 == s / 8 && i % 8 == s % 8 ==> i == s;
    }
  }

  /** Bytes hold their flags uniquely. */
  lemma PackedUnique(mem: seq<bv8>, a: seq<bool>, b: seq<bool>)
    requires Packed(mem, a) && Packed(mem, b) && |a| == |b|
    ensures a == b
  {
    forall i | 0 <= i < |a| ensures a[i] == b[i] {
      assert PackedAt(mem, a, i) && PackedAt(mem, b, i);
    }
  }

  function Padded(bits: seq<bool>): (p: seq<bool>)
    ensures |p| == (|bits| + 7) / 8 * 8 && bits <= p
  {
    bits + seq((|bits| + 7) / 8 * 8 - |bits|, _ => false)
  }

  lemma ZeroPacked(n: nat)
    ensures Packed(seq(n, _ => 0), seq(8 * n, _ => false))
  {
    NoBits();
    var mem: seq<bv8>, bits := seq(n, _ => 0), seq(8 * n, _ => false);
    forall i | 0 <= i < 8 * n ensures PackedAt(mem, bits, i) {
    }
  }

  /** The first `p` bits, and nothing after them. */
  function Cut(bits: seq<bool>, p: nat, total: nat): seq<bool>
    requires p <= |bits|
  {
    seq(total, i => 0 <= i < p && bits[i])
  }

  lemma CutStep(bits: seq<bool>, p: nat, total: nat)
    requires p < |bits| <= total
    ensures Cut(bits, p + 1, total) == Cut(bits, p, total)[p := bits[p]]
    ensures !bits[p] ==> Cut(bits, p + 1, total) == Cut(bits, p, total)
  {
  }

  /** Packs the bits into bytes that start out as zero. */
  method Pack(bits: seq<bool>) returns (bytes: seq<bv8>)
    ensures |bytes| == (|bits| + 7) / 8
    ensures Packed(bytes, Padded(bits))
  {
    var n := (|bits| + 7) / 8;
    bytes := seq(n, _ => 0);
    ZeroPacked(n);
    assert Cut(bits, 0, 8 * n) == seq(8 * n, _ => false);
    for p := 0 to |bits|
      invariant |bytes| == n && Packed(bytes, Cut(bits, p, 8 * n))
    {
      CutStep(bits, p, 8 * n);
      if bits[p] {
        var y := OrMask(bytes[p / 8], p % 8);
        PackedUpdate(bytes, Cut(bits, p, 8 * n), p, y, true);
        bytes := bytes[p / 8 := y];
      }
    }
    assert Cut(bits, |bits|, 8 * n) == Padded(bits);
  }

  method Unpack(bytes: seq<bv8>) returns (bits: seq<bool>)
    ensures |bits| == 8 * |bytes| && Packed(bytes, bits)
  {
    bits := [];
    for p := 0 to 8 * |bytes|
      invariant |bits| == p && Packed(bytes, bits)
    {
      ghost var before := bits;
      bits := bits + [Bit(bytes[p / 8], p % 8)];
      forall i | 0 <= i < |bits| ensures PackedAt(bytes, bits, i) {
        assert i < p ==> PackedAt(bytes, before, i);
      }
    }
  }
}

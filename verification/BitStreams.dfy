/** Bit streams over bytes, filled and emptied from the most significant bit. */
module BitStreams {
  import opened Numbers
  import opened Wrappers
  import opened BitStrings

  // ----- the expressions of the two loops

  /** The bits of a 64-bit number that go into the byte next: the number is shifted up
      until its wanted bits are on top, then down to the free part of the byte. */
  function Chunk(data: nat, nbits: nat, offset: nat): nat
    requires nbits <= 64
  {
    HighBits(LowBits(data, nbits) * Pow2(64 - nbits), 56 + offset)
  }

  /** It is the top of those bits, at the top of what is free. */
  lemma ChunkIs(data: nat, nbits: nat, offset: nat, bits: nat)
    requires 0 < nbits <= 64 && offset < 8 && bits == Min(8 - offset, nbits)
    ensures Chunk(data, nbits, offset) == HighBits(LowBits(data, nbits), nbits - bits) * Pow2(8 - offset - bits)
  {
    var f := LowBits(data, nbits);
    if nbits <= 8 - offset {
      ShiftUp(f, 8 - offset - nbits, 56 + offset);
    } else {
      ShiftDown(f, 64 - nbits, nbits - (8 - offset));
    }
  }

  lemma ShiftUp(f: nat, more: nat, down: nat)
    ensures HighBits(f * Pow2(more + down), down) == f * Pow2(more)
  {
    Pow2Add(more, down);
    assert f * (Pow2(more) * Pow2(down)) == (f * Pow2(more)) * Pow2(down);
    BitsAre(f * Pow2(more + down), down, f * Pow2(more), 0);
  }

  lemma ShiftDown(f: nat, up: nat, more: nat)
    ensures HighBits(f * Pow2(up), up + more) == HighBits(f, more)
  {
    HighBitsTwice(f * Pow2(up), up, more);
    BitsAre(f * Pow2(up), up, f, 0);
  }

  lemma PieceOr(buffer: nat, free: nat, h: nat, piece: nat)
    requires buffer == h * Pow2(free) && piece < Pow2(free)
    ensures Or(buffer, piece) == buffer + piece
  {
    MultipleIsClear(h, free);
    OrDisjoint(free, piece, buffer);
  }

  lemma PieceBits(h: nat, c: nat, bits: nat, left: nat, free: nat, next: nat)
    requires free == bits + left && next == h * Pow2(free) + c * Pow2(left)
    ensures HighBits(next, left) == h * Pow2(bits) + c && LowBits(next, left) == 0
  {
    Pow2Add(bits, left);
    PieceSum(h, c, Pow2(bits), Pow2(left));
    BitsAre(next, left, h * Pow2(bits) + c, 0);
  }

  lemma PieceInto(buffer: nat, h: nat, c: nat, bits: nat, left: nat, free: nat)
    requires free == bits + left <= 8 && c < Pow2(bits) && buffer < 256 && buffer == h * Pow2(free)
    ensures Or(buffer, c * Pow2(left)) == buffer + c * Pow2(left) < 256
  {
    BelowPiece(c, bits, left);
    PieceOr(buffer, free, h, c * Pow2(left));
    ByteRoom(buffer, free, h, c * Pow2(left));
  }

  /** The byte and the free part of it after a piece went in. */
  lemma PieceIn(buffer: nat, free: nat, bits: nat, left: nat, c: nat, next: nat)
    requires free == bits + left <= 8 && c < Pow2(bits) && LowBits(buffer, free) == 0 && buffer < 256
    requires next == Or(buffer, c * Pow2(left))
    ensures HighBits(next, left) == HighBits(buffer, free) * Pow2(bits) + c
    ensures LowBits(next, left) == 0 && next < 256
  {
    BitsSplit(buffer, free);
    PieceInto(buffer, HighBits(buffer, free), c, bits, left, free);
    PieceBits(HighBits(buffer, free), c, bits, left, free, next);
  }

  /** What filling the free part of the byte does to its bits. */
  lemma FillBits(buffer: nat, offset: nat, data: nat, nbits: nat, bits: nat, next: nat)
    requires offset < 8 && buffer < 256 && LowBits(buffer, 8 - offset) == 0
    requires 0 < nbits <= 64 && bits == Min(8 - offset, nbits) && next == Or(buffer, Chunk(data, nbits, offset))
    ensures LowBits(next, 8 - offset - bits) == 0 && next < 256
    ensures BitsOf(HighBits(next, 8 - offset - bits), offset + bits)
         == BitsOf(HighBits(buffer, 8 - offset), offset) + BitsOf(HighBits(data, nbits - bits), bits)
  {
    var c := HighBits(LowBits(data, nbits), nbits - bits);
    ChunkIs(data, nbits, offset, bits);
    TopPiece(data, nbits, bits);
    PieceIn(buffer, 8 - offset, bits, 8 - offset - bits, c, next);
    BitsJoin(HighBits(buffer, 8 - offset), c, offset, bits);
  }

  lemma WriteOn(before: seq<bool>, data: nat, n: nat, nbits: nat, bits: nat)
    requires bits <= nbits <= n
    ensures before + BitsOf(HighBits(data, nbits), n - nbits) + BitsOf(HighBits(data, nbits - bits), bits)
         == before + BitsOf(HighBits(data, nbits - bits), n - nbits + bits)
  {
    HighBitsTwice(data, nbits - bits, bits);
    BitsCut(HighBits(data, nbits - bits), n - nbits, bits);
  }

  lemma BelowPiece(c: nat, bits: nat, left: nat)
    requires c < Pow2(bits)
    ensures c * Pow2(left) < Pow2(bits + left)
  {
    Pow2Add(bits, left);
    MulMonotone(c + 1, Pow2(bits), Pow2(left));
    assert (c + 1) * Pow2(left) == c * Pow2(left) + Pow2(left);
  }

  lemma PieceSum(h: nat, c: nat, p: nat, q: nat)
    ensures h * (p * q) + c * q == (h * p + c) * q
  {
    assert h * (p * q) == (h * p) * q;
  }

  lemma ByteRoom(buffer: nat, free: nat, h: nat, piece: nat)
    requires free <= 8 && buffer < 256 && buffer == h * Pow2(free) && piece < Pow2(free)
    ensures buffer + piece < 256
  {
    assert Pow2(8) == 256;
    MultipleIsClear(h, free);
    ClearRoom(buffer, free, 8 - free);
  }

  class BitStreamWriter {
    var out: seq<nat>
    var buffer: nat
    var offset: nat

    /** The byte in the buffer is filled from the top. */
    ghost predicate Filled()
      reads this
    {
      && offset <= 8 && buffer < 256 && LowBits(buffer, 8 - offset) == 0
      && forall i :: 0 <= i < |out| ==> out[i] < 256
    }

    ghost predicate Valid()
      reads this
    {
      Filled() && offset < 8
    }

    /** All bits written, whether or not they make up a byte. */
    ghost function Written(): seq<bool>
      requires offset <= 8
      reads this
    {
      BytesBits(out) + BitsOf(HighBits(buffer, 8 - offset), offset)
    }

    ghost function Padding(): nat
      requires offset <= 8
      reads this
    {
      if offset == 0 then 0 else 8 - offset
    }

    constructor (out: seq<nat>)
      requires forall i :: 0 <= i < |out| ==> out[i] < 256
      ensures Valid() && offset == 0 && this.out == out && Written() == BytesBits(out)
    {
      this.out, buffer, offset := out, 0, 0;
      new;
      BitsAre(0, 8, 0, 0);
    }

    method Flush()
      requires Filled()
      modifies this
      ensures Valid() && offset == 0
      ensures Written() == BytesBits(out) == old(Written()) + Repeat(false, old(Padding()))
    {
      if offset == 0 {
        return;
      }
      BitsCut(buffer, offset, 8 - offset);
      BitsOfLow(buffer, 8 - offset, 8 - offset);
      ZeroBits(8 - offset);
      BytesBitsSnoc(out, buffer);
      out := out + [buffer];
      buffer, offset := 0, 0;
      BitsAre(0, 8, 0, 0);
    }

    /** The next bits of the number go into the free part of the byte. */
    method Fill(data: nat, nbits: nat, bits: nat)
      requires Valid() && 0 < nbits <= 64 && bits == Min(8 - offset, nbits)
      modifies this
      ensures Filled() && Written() == old(Written()) + BitsOf(HighBits(data, nbits - bits), bits)
      ensures out == old(out) && offset == old(offset) + bits
    {
      var next := Or(buffer, Chunk(data, nbits, offset));
      FillBits(buffer, offset, data, nbits, bits, next);
      buffer, offset := next, offset + bits;
    }

    method Put(data: nat, nbits: nat) returns (bits: nat)
      requires Valid() && 0 < nbits <= 64
      modifies this
      ensures Valid() && 0 < bits <= nbits
      ensures Written() == old(Written()) + BitsOf(HighBits(data, nbits - bits), bits)
    {
      bits := Min(8 - offset, nbits);
      Fill(data, nbits, bits);
      if offset == 8 {
        Flush();
      }
    }

    /** The lowest bits of a number, most significant first. */
    method Write(data: nat, n: nat)
      requires Valid() && n <= 64
      modifies this
      ensures Valid() && Written() == old(Written()) + BitsOf(data, n)
    {
      var nbits := n;
      while nbits > 0
        invariant 0 <= nbits <= n && Valid()
        invariant Written() == old(Written()) + BitsOf(HighBits(data, nbits), n - nbits)
      {
        var bits := Put(data, nbits);
        WriteOn(old(Written()), data, n, nbits, bits);
        nbits := nbits - bits;
      }
    }
  }

  /** Taking the top bits of the low part of a number. */
  lemma TopPiece(data: nat, nbits: nat, bits: nat)
    requires bits <= nbits
    ensures HighBits(LowBits(data, nbits), nbits - bits) < Pow2(bits)
    ensures BitsOf(HighBits(LowBits(data, nbits), nbits - bits), bits) == BitsOf(HighBits(data, nbits - bits), bits)
  {
    var f, rest := LowBits(data, nbits), nbits - bits;
    BitsSplit(data, nbits);
    HighBitsBelow(f, bits, rest);
    BitsCut(f, bits, rest);
    BitsCut(data, bits, rest);
    BitsOfLow(data, nbits, nbits);
    BitsOfLow(data, rest, nbits);
  }

  /** The next bits of the byte: what was returned is shifted out at the top, the rest is
      shifted down to the wanted bits. */
  function Piece(buffer: nat, offset: nat, bits: nat): nat
    requires offset <= 8 && bits <= 8
  {
    HighBits(LowBits(buffer, 8 - offset) * Pow2(offset), 8 - bits)
  }

  lemma PieceIs(buffer: nat, offset: nat, bits: nat)
    requires offset + bits <= 8
    ensures Piece(buffer, offset, bits) == NumberOf(BitsOf(buffer, 8 - offset)[..bits]) < Pow2(bits)
    ensures BitsOf(buffer, 8 - offset)[bits..] == BitsOf(buffer, 8 - offset - bits)
  {
    var left := 8 - offset - bits;
    ShiftDown(LowBits(buffer, 8 - offset), offset, left);
    TopPiece(buffer, 8 - offset, bits);
    BitsCut(buffer, bits, left);
    NumberOfBits(Piece(buffer, offset, bits), bits);
    BitsAre(Piece(buffer, offset, bits), bits, 0, Piece(buffer, offset, bits));
  }

  lemma CutFirst(a: seq<bool>, b: seq<bool>, n: nat)
    requires n <= |a|
    ensures (a + b)[..n] == a[..n] && (a + b)[n..] == a[n..] + b
  {
  }

  /** More bits below a number. */
  function Extend(data: nat, piece: nat, bits: nat): nat {
    Or(data * Pow2(bits), piece)
  }

  /** How far reading has come: a prefix as a number, and the rest. */
  ghost predicate Progress(all: seq<bool>, done: nat, data: nat, rest: seq<bool>) {
    done <= |all| && data == NumberOf(all[..done]) && rest == all[done..]
  }

  lemma ProgressOn(all: seq<bool>, done: nat, data: nat, rest: seq<bool>, piece: nat, bits: nat)
    requires Progress(all, done, data, rest) && bits <= |rest| && piece == NumberOf(rest[..bits]) < Pow2(bits)
    ensures Progress(all, done + bits, Extend(data, piece, bits), rest[bits..])
  {
    PieceOr(data * Pow2(bits), bits, data, piece);
    CutAgain(all, done, bits);
    NumberJoin(all[..done], rest[..bits]);
  }

  lemma CutAgain(all: seq<bool>, done: nat, bits: nat)
    requires done + bits <= |all|
    ensures all[..done + bits] == all[..done] + all[done..][..bits] && all[done..][bits..] == all[done + bits..]
  {
  }

  class BitStreamReader {
    const bytes: seq<nat>
    var pos: nat
    var buffer: nat
    var offset: nat

    ghost predicate Valid()
      reads this
    {
      pos <= |bytes| && offset <= 8
    }

    ghost function Remaining(): seq<bool>
      requires Valid()
      reads this
    {
      BitsOf(buffer, 8 - offset) + BytesBits(bytes[pos..])
    }

    constructor (bytes: seq<nat>, pos: nat)
      requires pos <= |bytes|
      ensures Valid() && offset > 0 && this.bytes == bytes && Remaining() == BytesBits(bytes[pos..])
    {
      this.bytes, this.pos, buffer, offset := bytes, pos, 0, 8;
    }

    /** Between reads, all bytes were taken exactly when less than a byte remains. */
    lemma AtEnd()
      requires Valid() && offset > 0
      ensures pos == |bytes| <==> |Remaining()| < 8
    {
      BytesBitsLength(bytes[pos..]);
    }

    /** Another byte when the last is used up. */
    method Refill() returns (ok: bool)
      requires Valid()
      modifies this
      ensures Valid() && Remaining() == old(Remaining())
      ensures ok <==> old(Remaining()) != []
      ensures if ok then offset < 8 else offset == old(offset)
    {
      BytesBitsLength(bytes[pos..]);
      if offset == 8 {
        if pos == |bytes| {
          return false;
        }
        assert bytes[pos..][1..] == bytes[pos + 1..];
        buffer, pos, offset := bytes[pos], pos + 1, 0;
      }
      ok := true;
    }

    method Take(nbits: nat) returns (piece: nat, bits: nat)
      requires Valid() && offset < 8 && nbits > 0
      modifies this
      ensures Valid() && offset > 0 && 0 < bits <= nbits && bits <= |old(Remaining())|
      ensures piece == NumberOf(old(Remaining())[..bits]) < Pow2(bits)
      ensures Remaining() == old(Remaining())[bits..]
    {
      bits := Min(8 - offset, nbits);
      piece := Piece(buffer, offset, bits);
      PieceIs(buffer, offset, bits);
      CutFirst(BitsOf(buffer, 8 - offset), BytesBits(bytes[pos..]), bits);
      offset := offset + bits;
    }

    /** As many of the wanted bits as the byte has, after another byte if need be. */
    method Next(nbits: nat) returns (piece: Option<nat>, bits: nat)
      requires Valid() && offset > 0 && nbits > 0
      modifies this
      ensures Valid() && offset > 0 && (piece.None? <==> old(Remaining()) == [])
      ensures piece.Some? ==> 0 < bits <= nbits && bits <= |old(Remaining())| && Remaining() == old(Remaining())[bits..]
      ensures piece.Some? ==> piece.value == NumberOf(old(Remaining())[..bits]) < Pow2(bits)
    {
      var ok := Refill();
      if !ok {
        return None, 0;
      }
      var p;
      p, bits := Take(nbits);
      piece := Some(p);
    }

    /** The next bits as a number, unless there are too few. */
    method Read(n: nat) returns (r: Option<nat>)
      requires Valid() && offset > 0 && n <= 64
      modifies this
      ensures Valid() && offset > 0
      ensures r.None? <==> |old(Remaining())| < n
      ensures r.Some? ==> r.value == NumberOf(old(Remaining())[..n]) && Remaining() == old(Remaining())[n..]
    {
      ghost var all := Remaining();
      var data: nat, nbits: nat := 0, n;
      while nbits > 0
        invariant nbits <= n && Valid() && offset > 0 && Progress(all, n - nbits, data, Remaining())
      {
        ghost var rest := Remaining();
        var piece, bits := Next(nbits);
        if piece.None? {
          return None;
        }
        ProgressOn(all, n - nbits, data, rest, piece.value, bits);
        data := Extend(data, piece.value, bits);
        nbits := nbits - bits;
      }
      r := Some(data);
    }
  }
}

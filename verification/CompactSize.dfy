/** Numbers in one, three or five bytes, as they precede a list. */
module CompactSize {
  import opened Wrappers

  const MAX_SIZE: nat := 0x0200_0000

  datatype Sized = Sized(n: nat, used: nat)

  function WriteSize(n: nat): seq<nat>
    requires n < 0x1_0000_0000
  {
    if n < 253 then [n]
    else if n <= 0xffff then [253, n % 256, n / 256]
    else [254, n % 256, (n / 256) % 256, (n / 65536) % 256, n / 16777216]
  }

  /** The number, unless bytes are missing, it has a shorter form, or it is too large.
      After 255 it is at least two to the thirty-second or has a shorter form. */
  function ReadSize(s: seq<nat>): Option<Sized> {
    if |s| == 0 then None
    else if s[0] < 253 then Some(Sized(s[0], 1))
    else if s[0] == 253 then
      if |s| < 3 then None
      else
        var n := s[1] + 256 * s[2];
        if n < 253 then None else Some(Sized(n, 3))
    else if s[0] == 254 then
      if |s| < 5 then None
      else
        var n := s[1] + 256 * s[2] + 65536 * s[3] + 16777216 * s[4];
        if n < 0x1_0000 || n > MAX_SIZE then None else Some(Sized(n, 5))
    else None
  }

  /** A size is read back exactly when it is not above the limit of the reader. */
  lemma ReadWriteSize(n: nat, rest: seq<nat>)
    requires n < 0x1_0000_0000
    ensures ReadSize(WriteSize(n) + rest) == if n <= MAX_SIZE then Some(Sized(n, |WriteSize(n)|)) else None
  {
    var s := WriteSize(n) + rest;
    if n > 0xffff {
      FourBytes(n);
      assert s[0] == 254 && s[1] == n % 256 && s[2] == (n / 256) % 256;
      assert s[3] == (n / 65536) % 256 && s[4] == n / 16777216;
    } else if n >= 253 {
      assert s[0] == 253 && s[1] == n % 256 && s[2] == n / 256;
    }
  }

  lemma FourBytes(n: nat)
    ensures n % 256 + 256 * ((n / 256) % 256) + 65536 * ((n / 65536) % 256) + 16777216 * (n / 16777216) == n
  {
    var a := n / 256;
    var b := a / 256;
    assert b == n / 65536 && b / 256 == n / 16777216;
  }

  /** The bytes after the first give the number, the lowest first. */
  lemma WriteSizeIs(n: nat)
    requires n < 0x1_0000_0000
    ensures var s := WriteSize(n);
      && (forall i :: 0 <= i < |s| ==> s[i] < 256)
      && (n < 253 ==> s == [n])
      && (253 <= n <= 0xffff ==> |s| == 3 && s[0] == 253 && s[1] + 256 * s[2] == n)
      && (n > 0xffff ==> |s| == 5 && s[0] == 254 && s[1] + 256 * s[2] + 65536 * s[3] + 16777216 * s[4] == n)
  {
    FourBytes(n);
  }

  /** Whatever is read was written in its shortest form. */
  lemma ReadIsWritten(s: seq<nat>)
    requires ReadSize(s).Some? && forall i :: 0 <= i < |s| ==> s[i] < 256
    ensures var size := ReadSize(s).value;
      size.n <= MAX_SIZE && size.used <= |s| && s[..size.used] == WriteSize(size.n)
  {
    var size := ReadSize(s).value;
    if size.used == 5 {
      Bytes(s[1], s[2], s[3], s[4]);
    }
    assert s[..size.used] == WriteSize(size.n);
  }

  lemma Bytes(a: nat, b: nat, c: nat, d: nat)
    requires a < 256 && b < 256 && c < 256 && d < 256
    ensures var n := a + 256 * b + 65536 * c + 16777216 * d;
      n % 256 == a && (n / 256) % 256 == b && (n / 65536) % 256 == c && n / 16777216 == d
  {
    var n := a + 256 * b + 65536 * c + 16777216 * d;
    assert n / 256 == b + 256 * c + 65536 * d;
    assert n / 65536 == c + 256 * d;
  }
}

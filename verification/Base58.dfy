/** Base 58 conversion with digit buffers filled from the back. */
module Base58 {
  import opened Radix
  import opened Numbers
  import opened Wrappers
  import opened Base58Model

  // ----- one digit more

  /** The last `i` digits times a factor, with a carry into the place before them. */
  ghost predicate Scaled(was: seq<nat>, w: seq<nat>, base: nat, factor: nat, digit: nat, i: nat, carry: nat) {
    && i <= |w| == |was|
    && w[..|w| - i] == was[..|w| - i]
    && Value(w[|w| - i..], base) + Product(carry, Pow(base, i)) == Product(factor, Value(was[|w| - i..], base)) + digit
  }

  lemma ScaleSum(v: nat, v0: nat, x: nat, lo: nat, hi: nat, carry: nat, base: nat, p: nat, factor: nat, digit: nat)
    requires v + carry * p == factor * v0 + digit && lo + hi * base == carry + factor * x
    ensures lo * p + v + hi * (base * p) == factor * (x * p + v0) + digit
  {
    assert (lo + hi * base) * p == (carry + factor * x) * p;
    assert (hi * base) * p == hi * (base * p);
    assert (factor * x) * p == factor * (x * p);
  }

  lemma ScaleStep(v: nat, v0: nat, x: nat, lo: nat, hi: nat, carry: nat, base: nat, p: nat, factor: nat, digit: nat)
    requires v + Product(carry, p) == Product(factor, v0) + digit && lo + hi * base == carry + factor * x
    ensures lo * p + v + Product(hi, base * p) == Product(factor, x * p + v0) + digit
  {
    ProductIs(carry, p);
    ProductIs(factor, v0);
    ScaleSum(v, v0, x, lo, hi, carry, base, p, factor, digit);
    ProductIs(hi, base * p);
    ProductIs(factor, x * p + v0);
  }

  lemma ScaleOn(was: seq<nat>, w: seq<nat>, base: nat, factor: nat, digit: nat, i: nat, carry: nat, lo: nat, hi: nat)
    requires Scaled(was, w, base, factor, digit, i, carry) && i < |w|
    requires lo + hi * base == carry + factor * w[|w| - 1 - i]
    ensures Scaled(was, w[|w| - 1 - i := lo], base, factor, digit, i + 1, hi)
  {
    var k := |w| - 1 - i;
    var u := w[k := lo];
    assert w[k] == w[..k + 1][k] == was[..k + 1][k] == was[k];
    assert u[k..] == [lo] + w[k + 1..] && was[k..] == [was[k]] + was[k + 1..];
    assert u[..k] == w[..k + 1][..k] && was[..k] == was[..k + 1][..k];
    ValueCons(lo, w[k + 1..], base);
    ValueCons(was[k], was[k + 1..], base);
    ScaleStep(Value(w[k + 1..], base), Value(was[k + 1..], base), was[k], lo, hi, carry, base, Pow(base, i), factor,
              digit);
  }

  /** All digits before the last few are zero. */
  ghost predicate TopZero(w: seq<nat>, length: nat) {
    length <= |w| && forall i :: 0 <= i < |w| - length ==> w[i] == 0
  }

  lemma TopZeroValue(w: seq<nat>, length: nat, base: nat)
    requires TopZero(w, length)
    ensures Value(w, base) == Value(w[|w| - length..], base)
  {
    var n := |w| - length;
    assert w == seq(n, _ => 0) + w[n..];
    ValueZeros(n, w[n..], base);
  }

  lemma StillTopZero(was: seq<nat>, w: seq<nat>, i: nat, length: nat)
    requires TopZero(was, length) && length <= i <= |w| == |was| && w[..|w| - i] == was[..|w| - i]
    ensures TopZero(was, i) && TopZero(w, i)
  {
    var n := |w| - i;
    forall j | 0 <= j < n
      ensures w[j] == 0
    {
      assert w[j] == w[..n][j] == was[..n][j];
    }
  }

  lemma NoCarry(v: nat, carry: nat, p: nat, total: nat, whole: bool)
    requires v + Product(carry, p) == total && (whole ==> total < p) && (carry == 0 || whole)
    ensures carry == 0 && v == total
  {
    ProductIs(carry, p);
    TimesAtLeast(carry, p);
  }

  lemma ScaledValues(was: seq<nat>, w: seq<nat>, base: nat, i: nat, length: nat)
    requires TopZero(was, length) && length <= i <= |w| == |was| && w[..|w| - i] == was[..|w| - i]
    ensures Value(was, base) == Value(was[|w| - i..], base) && Value(w, base) == Value(w[|w| - i..], base)
    ensures TopZero(w, i)
  {
    StillTopZero(was, w, i, length);
    TopZeroValue(was, i, base);
    TopZeroValue(w, i, base);
  }

  /** The loop ends with no carry when the result fits the buffer. */
  lemma ScaleDone(was: seq<nat>, w: seq<nat>, base: nat, factor: nat, digit: nat, i: nat, carry: nat, length: nat)
    requires Scaled(was, w, base, factor, digit, i, carry) && TopZero(was, length) && length <= i
    requires carry == 0 || i == |w|
    requires Product(factor, Value(was, base)) + digit < Pow(base, |w|)
    ensures carry == 0 && Value(w, base) == Product(factor, Value(was, base)) + digit && TopZero(w, i)
  {
    ScaledValues(was, w, base, i, length);
    NoCarry(Value(w, base), carry, Pow(base, i), Product(factor, Value(was, base)) + digit, i == |w|);
  }

  lemma ScaleStart(was: seq<nat>, base: nat, factor: nat, digit: nat)
    ensures Scaled(was, was, base, factor, digit, 0, digit)
  {
    assert was[|was|..] == [];
  }

  method SplitDigit(n: nat, base: nat) returns (lo: nat, hi: nat)
    requires base >= 1
    ensures lo + hi * base == n && lo < base
  {
    lo, hi := n % base, Quotient(n, base);
  }

  /** One place: the digit there times the factor, with the carry. */
  method ScaleDigit(buf: array<nat>, base: nat, factor: nat, k: nat, carry: nat) returns (ghost lo: nat, hi: nat)
    requires base >= 1 && k < buf.Length && AllDigits(buf[..], base)
    modifies buf
    ensures lo + hi * base == carry + factor * old(buf[k]) && buf[..] == old(buf[..])[k := lo]
    ensures AllDigits(buf[..], base)
  {
    var d, h := SplitDigit(carry + factor * buf[k], base);
    buf[k] := d;
    lo, hi := d, h;
    assert buf[..] == old(buf[..])[k := lo];
  }

  /** The buffer times the factor plus a digit. The carry that the source asserts to be
      zero at the end is returned; it is zero whenever the number fits. */
  method Append(buf: array<nat>, base: nat, factor: nat, digit: nat, length: nat) returns (carry: nat, used: nat)
    requires base >= 1 && AllDigits(buf[..], base) && TopZero(buf[..], length)
    requires Product(factor, Value(buf[..], base)) + digit < Pow(base, buf.Length)
    modifies buf
    ensures carry == 0 && AllDigits(buf[..], base) && TopZero(buf[..], used)
    ensures Value(buf[..], base) == Product(factor, old(Value(buf[..], base))) + digit
  {
    ghost var was := buf[..];
    carry, used := AppendLoop(buf, base, factor, digit, length);
    ScaleDone(was, buf[..], base, factor, digit, used, carry, length);
  }

  method AppendLoop(buf: array<nat>, base: nat, factor: nat, digit: nat, length: nat) returns (carry: nat, used: nat)
    requires base >= 1 && AllDigits(buf[..], base) && length <= buf.Length
    modifies buf
    ensures length <= used <= buf.Length && (carry == 0 || used == buf.Length)
    ensures AllDigits(buf[..], base) && Scaled(old(buf[..]), buf[..], base, factor, digit, used, carry)
  {
    ghost var was := buf[..];
    ScaleStart(was, base, factor, digit);
    carry, used := digit, 0;
    while (carry != 0 || used < length) && used < buf.Length
      invariant used <= buf.Length && AllDigits(buf[..], base)
      invariant Scaled(was, buf[..], base, factor, digit, used, carry)
      decreases buf.Length - used
    {
      ghost var before := buf[..];
      ghost var lo;
      var hi;
      lo, hi := ScaleDigit(buf, base, factor, buf.Length - 1 - used, carry);
      ScaleOn(was, before, base, factor, digit, used, carry, lo, hi);
      carry := hi;
      used := used + 1;
    }
  }

  // ----- whole numbers

  /** The buffer after some digits of the other base went in. */
  ghost predicate Holds(w: seq<nat>, base: nat, length: nat, digits: seq<nat>, factor: nat) {
    AllDigits(w, base) && TopZero(w, length) && Value(w, base) == Value(digits, factor)
  }

  lemma NextValue(digits: seq<nat>, k: nat, factor: nat)
    requires k < |digits|
    ensures Value(digits[..k + 1], factor) == Product(factor, Value(digits[..k], factor)) + digits[k]
  {
    assert digits[..k + 1] == digits[..k] + [digits[k]];
    ProductIs(factor, Value(digits[..k], factor));
    ValueSnoc(digits[..k], digits[k], factor);
  }

  lemma NextFits(digits: seq<nat>, k: nat, factor: nat, base: nat, size: nat)
    requires AllDigits(digits, factor) && k < |digits| && factor >= 1
    requires Pow(factor, |digits|) <= Pow(base, size)
    ensures Value(digits[..k + 1], factor) < Pow(base, size)
  {
    ValueBound(digits[..k + 1], factor);
    PowMonotone(factor, k + 1, |digits|);
  }

  lemma EmptyHolds(w: seq<nat>, base: nat, factor: nat)
    requires base >= 1 && forall i :: 0 <= i < |w| ==> w[i] == 0
    ensures Holds(w, base, 0, [], factor)
  {
    TopZeroValue(w, 0, base);
    assert w[|w|..] == [];
  }

  /** The digits from the first that is not zero are those of the number. */
  method Trimmed(buf: array<nat>, base: nat, length: nat) returns (start: nat)
    requires base >= 2 && AllDigits(buf[..], base) && TopZero(buf[..], length)
    ensures start <= buf.Length && buf[start..] == Digits(Value(buf[..], base), base)
  {
    start := buf.Length - length;
    while start < buf.Length && buf[start] == 0
      invariant buf.Length - length <= start <= buf.Length && TopZero(buf[..], buf.Length - start)
    {
      start := start + 1;
    }
    TrimIs(buf[..], start, base);
    assert buf[..][start..] == buf[start..];
  }

  lemma TrimIs(w: seq<nat>, start: nat, base: nat)
    requires base >= 2 && start <= |w| && AllDigits(w, base) && TopZero(w, |w| - start)
    requires start < |w| ==> w[start] != 0
    ensures w[start..] == Digits(Value(w, base), base)
  {
    TopZeroValue(w, |w| - start, base);
    DigitsUnique(w[start..], base);
  }

  method Convert(digits: seq<nat>, factor: nat, base: nat, size: nat) returns (r: seq<nat>)
    requires factor >= 2 && base >= 2 && AllDigits(digits, factor) && Pow(factor, |digits|) <= Pow(base, size)
    ensures r == Digits(Value(digits, factor), base)
  {
    var buf := new nat[size](_ => 0);
    var length, k: nat := 0, 0;
    EmptyHolds(buf[..], base, factor);
    assert digits[..0] == [];
    while k < |digits|
      invariant k <= |digits| && Holds(buf[..], base, length, digits[..k], factor)
    {
      NextValue(digits, k, factor);
      NextFits(digits, k, factor, base, size);
      var carry, used := Append(buf, base, factor, digits[k], length);
      assert carry == 0;
      length := used;
      k := k + 1;
    }
    assert digits[..k] == digits;
    var start := Trimmed(buf, base, length);
    r := buf[start..];
  }

  method CountZeros(v: seq<nat>) returns (z: nat)
    ensures z == Leading(Zero, v)
  {
    z := 0;
    while z < |v| && v[z] == 0
      invariant z <= |v| && forall i :: 0 <= i < z ==> Zero(v[i])
    {
      z := z + 1;
    }
    LeadingIs(Zero, v, z);
  }

  method EncodeBase58(v: seq<nat>) returns (str: string)
    requires AllDigits(v, 256)
    ensures str == Encode(v)
  {
    var zeroes := CountZeros(v);
    var rest := v[zeroes..];
    EncodeRoom(|rest|);
    var b58 := Convert(rest, 256, 58, |rest| * 138 / 100 + 1);
    DigitsShape(Value(rest, 256), 58);
    str := seq(zeroes, _ => '1');
    var i: nat := 0;
    while i < |b58|
      invariant i <= |b58| && str == seq(zeroes, _ => '1') + Chars(b58)[..i]
    {
      str := str + [CharOf(b58[i])];
      i := i + 1;
    }
    assert Chars(b58)[..i] == Chars(b58);
  }

  // ----- reading a string

  method SkipSpaces(s: string, from: nat) returns (p: nat)
    requires from <= |s|
    ensures p == from + Leading(Space, s[from..])
  {
    p := from;
    while p < |s| && IsSpace(s[p])
      invariant from <= p <= |s| && forall i :: from <= i < p ==> IsSpace(s[i])
    {
      p := p + 1;
    }
    LeadingIs(Space, s[from..], p - from);
  }

  method SkipOnes(s: string, from: nat) returns (p: nat)
    requires from <= |s|
    ensures from <= p <= |s| && (p < |s| ==> s[p] != '1') && forall i :: from <= i < p ==> s[i] == '1'
  {
    p := from;
    while p < |s| && s[p] == '1'
      invariant from <= p <= |s| && forall i :: from <= i < p ==> s[i] == '1'
    {
      p := p + 1;
    }
  }

  lemma TextGrows(t: string, c: char)
    requires IsText(t) && DigitOf(c).Some?
    ensures IsText(t + [c]) && TextDigits(t + [c]) == TextDigits(t) + [DigitOf(c).value]
  {
    var u := t + [c];
    forall i | 0 <= i < |u|
      ensures DigitOf(u[i]).Some?
    {
      assert i < |t| ==> u[i] == t[i];
    }
  }

  lemma NextCharFits(t: string, c: char, room: nat, size: nat)
    requires IsText(t) && DigitOf(c).Some? && |t| < room && Pow(58, room) <= Pow(256, size)
    ensures IsText(t + [c])
    ensures Value(TextDigits(t + [c]), 58) == Product(58, Value(TextDigits(t), 58)) + DigitOf(c).value < Pow(256, size)
  {
    TextGrows(t, c);
    ProductIs(58, Value(TextDigits(t), 58));
    ValueSnoc(TextDigits(t), DigitOf(c).value, 58);
    CharsOfText(t + [c]);
    ValueBound(TextDigits(t + [c]), 58);
    PowMonotone(58, |t| + 1, room);
  }

  method ReadDigit(ghost t: string, c: char, ghost room: nat, buf: array<nat>, length: nat) returns (used: nat)
    requires IsText(t) && DigitOf(c).Some? && |t| < room && Pow(58, room) <= Pow(256, buf.Length)
    requires Holds(buf[..], 256, length, TextDigits(t), 58)
    modifies buf
    ensures IsText(t + [c]) && Holds(buf[..], 256, used, TextDigits(t + [c]), 58)
  {
    NextCharFits(t, c, room, buf.Length);
    var carry;
    carry, used := Append(buf, 256, 58, DigitOf(c).value, length);
    assert carry == 0;
  }

  /** The characters up to the next space, as digits of the buffer's base. A character
      that is no digit stops it. */
  method ReadDigits(s: string, from: nat, buf: array<nat>) returns (ok: bool, p: nat, length: nat)
    requires from <= |s| && Holds(buf[..], 256, 0, [], 58) && Pow(58, |s| - from) <= Pow(256, buf.Length)
    modifies buf
    ensures from <= p <= |s| && IsText(s[from..p]) && All(Dark, s[from..p])
    ensures ok ==> (p < |s| ==> IsSpace(s[p])) && Holds(buf[..], 256, length, TextDigits(s[from..p]), 58)
    ensures !ok ==> p < |s| && !IsSpace(s[p]) && DigitOf(s[p]).None?
  {
    ok, p, length := true, from, 0;
    assert s[from..from] == [] && TextDigits([]) == [];
    while p < |s| && !IsSpace(s[p])
      invariant from <= p <= |s| && IsText(s[from..p]) && All(Dark, s[from..p])
      invariant Holds(buf[..], 256, length, TextDigits(s[from..p]), 58)
    {
      if DigitOf(s[p]).None? {
        return false, p, length;
      }
      length := ReadDigit(s[from..p], s[p], |s| - from, buf, length);
      assert s[from..p + 1] == s[from..p] + [s[p]];
      p := p + 1;
    }
  }

  /** Where the scan stands: spaces, then ones, then digits up to `p`. */
  ghost predicate Scanned(s: string, start: nat, q: nat, p: nat) {
    && start <= q <= p <= |s| && start == Leading(Space, s)
    && (forall i :: start <= i < q ==> s[i] == '1')
    && (q < |s| ==> s[q] != '1')
    && IsText(s[q..p]) && All(Dark, s[q..p])
  }

  lemma ScannedDark(s: string, start: nat, q: nat, p: nat)
    requires Scanned(s, start, q, p)
    ensures forall i :: 0 <= i < p - start ==> Dark(s[start..][i])
  {
    forall i | 0 <= i < p - start
      ensures Dark(s[start..][i])
    {
      if start + i >= q {
        assert Dark(s[q..p][start + i - q]);
      }
    }
  }

  lemma ScannedToken(s: string, start: nat, q: nat, p: nat)
    requires Scanned(s, start, q, p) && (p < |s| ==> IsSpace(s[p]))
    ensures Token(s) == s[start..p] && Trailer(s) == s[p..] && IsText(s[start..p])
  {
    ScannedDark(s, start, q, p);
    LeadingIs(Dark, s[start..], p - start);
    forall i | 0 <= i < p - start
      ensures DigitOf(s[start..p][i]).Some?
    {
      if start + i >= q {
        assert s[start..p][i] == s[q..p][start + i - q];
      }
    }
  }

  lemma ScannedBytes(s: string, start: nat, q: nat, p: nat)
    requires Scanned(s, start, q, p) && IsText(s[start..p])
    ensures Bytes(s[start..p]) == seq(q - start, _ => 0) + Digits(Value(TextDigits(s[q..p]), 58), 256)
  {
    var token, z := s[start..p], q - start;
    LeadingIs(One, token, z);
    assert token[z..] == s[q..p];
  }

  lemma BadCharacter(s: string, start: nat, q: nat, p: nat)
    requires Scanned(s, start, q, p) && p < |s| && !IsSpace(s[p]) && DigitOf(s[p]).None?
    ensures Decode(s).None?
  {
    ScannedDark(s, start, q, p);
    var t := s[start..];
    var n := Leading(Dark, t);
    assert Dark(t[p - start]);
    assert n > p - start;
    assert Token(s)[p - start] == s[p];
  }

  method DecodeBase58(s: string) returns (r: Option<seq<nat>>)
    ensures r == Decode(s)
  {
    var start := SkipSpaces(s, 0);
    assert s[0..] == s;
    var q := SkipOnes(s, start);
    DecodeRoom(|s| - q);
    var buf := new nat[(|s| - q) * 733 / 1000 + 1](_ => 0);
    EmptyHolds(buf[..], 256, 58);
    var ok, p, length := ReadDigits(s, q, buf);
    if !ok {
      BadCharacter(s, start, q, p);
      return None;
    }
    ScannedToken(s, start, q, p);
    var end := SkipSpaces(s, p);
    if end != |s| {
      return None;
    }
    var first := Trimmed(buf, 256, length);
    ScannedBytes(s, start, q, p);
    r := Some(seq(q - start, _ => 0) + buf[first..]);
  }
}

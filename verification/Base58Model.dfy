/** Base 58 strings of byte sequences. */
module Base58Model {
  import opened Radix
  import opened Wrappers

  /** The character of a digit: a letter or a number other than zero, I, O and l. */
  function CharOf(d: nat): char
    requires d < 58
  {
    if d < 9 then '1' + d as char
    else if d < 17 then 'A' + (d - 9) as char
    else if d < 22 then 'J' + (d - 17) as char
    else if d < 33 then 'P' + (d - 22) as char
    else if d < 44 then 'a' + (d - 33) as char
    else 'm' + (d - 44) as char
  }

  function DigitOf(c: char): Option<nat> {
    if '1' <= c <= '9' then Some((c - '1') as nat)
    else if 'A' <= c <= 'H' then Some((c - 'A') as nat + 9)
    else if 'J' <= c <= 'N' then Some((c - 'J') as nat + 17)
    else if 'P' <= c <= 'Z' then Some((c - 'P') as nat + 22)
    else if 'a' <= c <= 'k' then Some((c - 'a') as nat + 33)
    else if 'm' <= c <= 'z' then Some((c - 'm') as nat + 44)
    else None
  }

  /** The alphabet: runs of neighbours, without zero, I, O and l. */
  lemma CharIs(d: nat)
    requires d < 57
    ensures CharOf(0) == '1' && CharOf(8) == '9' && CharOf(9) == 'A' && CharOf(16) == 'H' && CharOf(17) == 'J'
    ensures CharOf(21) == 'N' && CharOf(22) == 'P' && CharOf(32) == 'Z' && CharOf(33) == 'a' && CharOf(43) == 'k'
    ensures CharOf(44) == 'm' && CharOf(57) == 'z'
    ensures d !in {8, 16, 21, 32, 43} ==> CharOf(d + 1) == CharOf(d) + 1 as char
  {
  }

  lemma DigitOfChar(d: nat)
    requires d < 58
    ensures DigitOf(CharOf(d)) == Some(d) && !IsSpace(CharOf(d)) && (CharOf(d) == '1' <==> d == 0)
  {
  }

  lemma CharOfDigit(c: char)
    ensures DigitOf(c).Some? ==> DigitOf(c).value < 58 && CharOf(DigitOf(c).value) == c
  {
  }

  predicate IsSpace(c: char) {
    c == ' ' || c == '\t' || c == '\n' || c == '\U{0b}' || c == '\U{0c}' || c == '\r'
  }

  lemma SpaceIs(c: char)
    ensures IsSpace(c) <==> c as int == 32 || 9 <= c as int <= 13
  {
  }

  // ----- pieces of a sequence

  /** How many of the first elements hold a property. */
  function Leading<T>(p: T -> bool, s: seq<T>): (n: nat)
    ensures n <= |s| && (n < |s| ==> !p(s[n])) && forall i :: 0 <= i < n ==> p(s[i])
  {
    if s == [] || !p(s[0]) then 0 else 1 + Leading(p, s[1..])
  }

  lemma {:induction false} LeadingIs<T>(p: T -> bool, s: seq<T>, n: nat)
    requires n <= |s| && (n < |s| ==> !p(s[n])) && forall i :: 0 <= i < n ==> p(s[i])
    ensures Leading(p, s) == n
  {
    if n > 0 {
      LeadingIs(p, s[1..], n - 1);
    }
  }

  ghost predicate All<T(!new)>(p: T -> bool, s: seq<T>) {
    forall i :: 0 <= i < |s| ==> p(s[i])
  }

  const Zero: nat -> bool := (x: nat) => x == 0
  const One: char -> bool := (c: char) => c == '1'
  const Space: char -> bool := IsSpace
  const Dark: char -> bool := (c: char) => !IsSpace(c)

  function Chars(s: seq<nat>): (r: string)
    requires AllDigits(s, 58)
    ensures |r| == |s| && forall i :: 0 <= i < |s| ==> r[i] == CharOf(s[i])
  {
    seq(|s|, i requires 0 <= i < |s| => CharOf(s[i]))
  }

  predicate IsText(s: string) {
    forall i :: 0 <= i < |s| ==> DigitOf(s[i]).Some?
  }

  function TextDigits(s: string): (r: seq<nat>)
    requires IsText(s)
    ensures |r| == |s| && forall i :: 0 <= i < |s| ==> r[i] == DigitOf(s[i]).value
  {
    seq(|s|, i requires 0 <= i < |s| => DigitOf(s[i]).value)
  }

  // ----- the two conversions

  function Encode(v: seq<nat>): string {
    var z := Leading(Zero, v);
    DigitsShape(Value(v[z..], 256), 58);
    seq(z, _ => '1') + Chars(Digits(Value(v[z..], 256), 58))
  }

  /** The characters from the first that is no space to the next that is one. */
  function Token(s: string): string {
    var t := s[Leading(Space, s)..];
    t[..Leading(Dark, t)]
  }

  /** What follows them. */
  function Trailer(s: string): string {
    var t := s[Leading(Space, s)..];
    t[Leading(Dark, t)..]
  }

  /** A token as bytes: a zero for every leading one, then the number of the rest. */
  function Bytes(token: string): seq<nat>
    requires IsText(token)
  {
    var z := Leading(One, token);
    seq(z, _ => 0) + Digits(Value(TextDigits(token[z..]), 58), 256)
  }

  function Decode(s: string): Option<seq<nat>> {
    if IsText(Token(s)) && Leading(Space, Trailer(s)) == |Trailer(s)| then Some(Bytes(Token(s))) else None
  }

  /** One byte is written with its higher digit first; a zero byte is a one. */
  lemma EncodeByte(b: nat)
    requires 58 <= b < 256
    ensures Encode([b]) == [CharOf(b / 58), CharOf(b % 58)] && Encode([0]) == "1"
  {
    var base, other := 58, 256;
    ByteValue(b, other);
    ByteDigits(b, base);
    assert Leading(Zero, [b]) == 0 && [b][0..] == [b];
    assert [0][1..] == [] && Leading(Zero, [0]) == 1;
    assert Value([], other) == 0 && Digits(0, base) == [];
  }

  lemma ByteValue(b: nat, base: nat)
    ensures Value([b], base) == b
  {
    assert [b][..0] == [];
  }

  lemma ByteDigits(b: nat, base: nat)
    requires base == 58 && base <= b < 256
    ensures Digits(b, base) == [b / base, b % base]
  {
    var q := b / base;
    assert 0 < q < base && q / base == 0 && q % base == q;
    assert Digits(0, base) == [];
    assert Digits(q, base) == [] + [q];
  }

  // ----- they are inverse

  lemma OnesThenChars(z: nat, d: seq<nat>)
    requires AllDigits(d, 58) && (d != [] ==> d[0] != 0)
    ensures var t := seq(z, _ => '1') + Chars(d);
      Leading(One, t) == z && IsText(t) && All(Dark, t) && TextDigits(t[z..]) == d
  {
    var t := seq(z, _ => '1') + Chars(d);
    forall i | 0 <= i < |t|
      ensures DigitOf(t[i]) == Some(if i < z then 0 else d[i - z]) && !IsSpace(t[i])
    {
      DigitOfChar(if i < z then 0 else d[i - z]);
    }
    if d != [] {
      DigitOfChar(d[0]);
    }
    LeadingIs(One, t, z);
    TextDigitsAre(t[z..], d);
  }

  lemma TextDigitsAre(t: string, d: seq<nat>)
    requires |t| == |d| && forall i :: 0 <= i < |t| ==> DigitOf(t[i]) == Some(d[i])
    ensures IsText(t) && TextDigits(t) == d
  {
  }

  lemma EncodeShape(v: seq<nat>)
    ensures var z := Leading(Zero, v);
      var t := Encode(v);
      && Leading(One, t) == z && IsText(t) && All(Dark, t)
      && TextDigits(t[z..]) == Digits(Value(v[z..], 256), 58)
  {
    var z := Leading(Zero, v);
    var n := Value(v[z..], 256);
    DigitsShape(n, 58);
    OnesThenChars(z, Digits(n, 58));
  }

  /** Decoding what was encoded gives the bytes back. */
  lemma DecodeEncode(v: seq<nat>)
    requires AllDigits(v, 256)
    ensures Decode(Encode(v)) == Some(v)
  {
    var z := Leading(Zero, v);
    var t := Encode(v);
    EncodeShape(v);
    LeadingIs(Space, t, 0);
    assert t[0..] == t;
    LeadingIs(Dark, t, |t|);
    assert Token(t) == t && Trailer(t) == [];
    DigitsValue(Value(v[z..], 256), 58);
    DigitsUnique(v[z..], 256);
    assert v == seq(z, _ => 0) + v[z..];
  }

  /** A string without the spaces around it. */
  function Strip(s: string): string {
    DropTrailing(s[Leading(Space, s)..])
  }

  function DropTrailing(s: string): (r: string)
    ensures r <= s && (r != [] ==> !IsSpace(r[|r| - 1]))
    ensures forall i :: |r| <= i < |s| ==> IsSpace(s[i])
  {
    if s == [] || !IsSpace(s[|s| - 1]) then s else DropTrailing(s[..|s| - 1])
  }

  lemma NoSpaces(s: string)
    requires IsText(s)
    ensures All(Dark, s)
  {
    forall i | 0 <= i < |s|
      ensures !IsSpace(s[i])
    {
      assert DigitOf(s[i]).Some?;
    }
  }

  lemma {:induction false} DropTrailingIs(t: string, n: nat)
    requires n <= |t| && (n > 0 ==> !IsSpace(t[n - 1])) && forall i :: n <= i < |t| ==> IsSpace(t[i])
    ensures DropTrailing(t) == t[..n]
    decreases |t|
  {
    if n < |t| {
      DropTrailingIs(t[..|t| - 1], n);
      assert t[..|t| - 1][..n] == t[..n];
    } else {
      assert t[..n] == t;
    }
  }

  lemma DecodedIsText(s: string)
    requires Decode(s).Some?
    ensures Token(s) == Strip(s)
  {
    var t := s[Leading(Space, s)..];
    var n := Leading(Dark, t);
    forall i | n <= i < |t|
      ensures IsSpace(t[i])
    {
      assert t[i] == Trailer(s)[i - n];
    }
    DropTrailingIs(t, n);
  }

  lemma TextDecodes(s: string)
    requires IsText(Strip(s))
    ensures Decode(s).Some?
  {
    var t := s[Leading(Space, s)..];
    var r := DropTrailing(t);
    NoSpaces(r);
    forall i | 0 <= i < |r|
      ensures Dark(t[i])
    {
      assert t[i] == r[i];
    }
    LeadingIs(Dark, t, |r|);
    LeadingIs(Space, t[|r|..], |t| - |r|);
  }

  /** A string decodes exactly when it is a base 58 text between spaces. */
  lemma DecodesIff(s: string)
    ensures Decode(s).Some? <==> IsText(Strip(s))
    ensures Decode(s).Some? ==> Token(s) == Strip(s)
  {
    if Decode(s).Some? {
      DecodedIsText(s);
    }
    if IsText(Strip(s)) {
      TextDecodes(s);
    }
  }

  lemma CharsOfText(t: string)
    requires IsText(t)
    ensures AllDigits(TextDigits(t), 58) && Chars(TextDigits(t)) == t
  {
    forall i | 0 <= i < |t|
      ensures TextDigits(t)[i] < 58 && CharOf(TextDigits(t)[i]) == t[i]
    {
      CharOfDigit(t[i]);
    }
  }

  /** The leading zeros of the bytes are those of the leading ones. */
  lemma BytesShape(z: nat, n: nat)
    ensures var v := seq(z, _ => 0) + Digits(n, 256);
      Leading(Zero, v) == z && v[z..] == Digits(n, 256) && AllDigits(v, 256)
  {
    var v := seq(z, _ => 0) + Digits(n, 256);
    DigitsShape(n, 256);
    LeadingIs(Zero, v, z);
  }

  lemma EncodeOf(v: seq<nat>, z: nat, n: nat, t: string)
    requires z == Leading(Zero, v) && n == Value(v[z..], 256)
    requires IsText(t) && AllDigits(TextDigits(t), 58) && Digits(n, 58) == TextDigits(t) && Chars(TextDigits(t)) == t
    ensures Encode(v) == seq(z, _ => '1') + t
  {
  }

  lemma EncodeBytes(token: string)
    requires IsText(token)
    ensures Encode(Bytes(token)) == token && AllDigits(Bytes(token), 256)
  {
    var z := Leading(One, token);
    var n := Value(TextDigits(token[z..]), 58);
    TokenDigits(token);
    BytesShape(z, n);
    DigitsValue(n, 256);
    DigitsUnique(TextDigits(token[z..]), 58);
    CharsOfText(token[z..]);
    EncodeOf(Bytes(token), z, n, token[z..]);
    LeadingOnes(token, z);
  }

  lemma LeadingOnes(token: string, z: nat)
    requires z == Leading(One, token)
    ensures token == seq(z, _ => '1') + token[z..]
  {
  }

  /** Encoding what was decoded gives the text back, without the spaces around it. */
  lemma EncodeDecode(s: string)
    requires Decode(s).Some?
    ensures Encode(Decode(s).value) == Strip(s) && AllDigits(Decode(s).value, 256)
  {
    DecodesIff(s);
    EncodeBytes(Token(s));
  }

  lemma TokenDigits(token: string)
    requires IsText(token)
    ensures var d := TextDigits(token[Leading(One, token)..]); AllDigits(d, 58) && (d != [] ==> d[0] != 0)
  {
    var z := Leading(One, token);
    var d := TextDigits(token[z..]);
    forall i | 0 <= i < |d|
      ensures d[i] < 58 && (d[i] == 0 ==> token[z + i] == '1')
    {
      CharOfDigit(token[z + i]);
      assert d[i] == DigitOf(token[z + i]).value;
    }
  }
}

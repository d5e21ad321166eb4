/** UTF-8 with a strict decoder. */
module Utf8Text {
  import opened Text
  import Base64

  type Byte = Base64.Byte

  function CodePoint(n: int): (c: Option<char>)
    ensures c.Some? ==> c.value as int == n
  {
    if 0 <= n < 0xD800 || 0xE000 <= n < 0x11_0000 then Some(n as char) else None
  }

  function Utf8Char(c: char): (r: seq<Byte>)
    ensures 1 <= |r| <= 4
  {
    var n := c as int;
    if n < 0x80 then [n]
    else if n < 0x800 then [0xC0 + n / 64, 0x80 + n % 64]
    else if n < 0x1_0000 then [0xE0 + n / 4096, 0x80 + n / 64 % 64, 0x80 + n % 64]
    else [0xF0 + n / 262144, 0x80 + n / 4096 % 64, 0x80 + n / 64 % 64, 0x80 + n % 64]
  }

  function Utf8(s: string): seq<Byte> {
    if s == "" then [] else Utf8Char(s[0]) + Utf8(s[1..])
  }

  predicate IsTail(b: Byte) { 0x80 <= b < 0xC0 }

  function Low(b: Byte): int { b - 0x80 }

  /** The first character and its length; overlong forms and surrogates are errors. */
  function FirstChar(b: seq<Byte>): (r: Option<(char, nat)>)
    requires b != []
    ensures r.Some? ==> 1 <= r.value.1 <= |b|
  {
    var n: int := b[0];
    if n < 0x80 then Some((n as char, 1))
    else if 0xC0 <= n < 0xE0 then
      if |b| < 2 || !IsTail(b[1]) then None
      else Checked((n - 0xC0) * 64 + Low(b[1]), 0x80, 2)
    else if 0xE0 <= n < 0xF0 then
      if |b| < 3 || !IsTail(b[1]) || !IsTail(b[2]) then None
      else Checked((n - 0xE0) * 4096 + Low(b[1]) * 64 + Low(b[2]), 0x800, 3)
    else if 0xF0 <= n < 0xF8 then
      if |b| < 4 || !IsTail(b[1]) || !IsTail(b[2]) || !IsTail(b[3]) then None
      else Checked((n - 0xF0) * 262144 + Low(b[1]) * 4096 + Low(b[2]) * 64 + Low(b[3]), 0x1_0000, 4)
    else None
  }

  function Checked(n: int, least: int, length: nat): (r: Option<(char, nat)>)
    ensures r.Some? ==> r.value.1 == length
  {
    if n < least || CodePoint(n).None? then None else Some((CodePoint(n).value, length))
  }

  function FromUtf8(b: seq<Byte>): Option<string> {
    if b == [] then Some("")
    else
      var first := FirstChar(b);
      if first.None? then None
      else
        var rest := FromUtf8(b[first.value.1..]);
        if rest.None? then None else Some([first.value.0] + rest.value)
  }

  lemma Quotients(n: nat)
    ensures n / 64 / 64 == n / 4096 && n / 4096 / 64 == n / 262144
  {
  }

  lemma SixBitGroups(n: nat)
    ensures n == n / 64 * 64 + n % 64
    ensures n == n / 4096 * 4096 + n / 64 % 64 * 64 + n % 64
    ensures n == n / 262144 * 262144 + n / 4096 % 64 * 4096 + n / 64 % 64 * 64 + n % 64
  {
    Quotients(n);
    var a, b, c := n / 64, n / 4096, n / 262144;
    assert n == a * 64 + n % 64;
    assert a == b * 64 + a % 64;
    assert b == c * 64 + b % 64;
  }

  lemma FirstByteBack(b: seq<Byte>, rest: seq<Byte>)
    requires b != []
    ensures b + rest != [] && forall i | 0 <= i < |b| :: (b + rest)[i] == b[i]
  {
  }

  lemma FirstCharBack(c: char, rest: seq<Byte>)
    ensures Utf8Char(c) + rest != []
    ensures FirstChar(Utf8Char(c) + rest) == Some((c, |Utf8Char(c)|))
  {
    SixBitGroups(c as int);
    assert CodePoint(c as int) == Some(c);
    var b := Utf8Char(c);
    FirstByteBack(b, rest);
    hide CodePoint;
  }

  lemma {:induction false} Utf8RoundTrip(s: string)
    ensures FromUtf8(Utf8(s)) == Some(s)
  {
    if s != "" {
      var rest := Utf8(s[1..]);
      FirstCharBack(s[0], rest);
      assert (Utf8Char(s[0]) + rest)[|Utf8Char(s[0])|..] == rest;
      Utf8RoundTrip(s[1..]);
      assert s == [s[0]] + s[1..];
    }
  }

  lemma {:induction false} Utf8Injective(a: string, b: string)
    requires Utf8(a) == Utf8(b)
    ensures a == b
  {
    Utf8RoundTrip(a);
    Utf8RoundTrip(b);
  }

  /** The form that section 3 of RFC 3629 prescribes: the leading byte tells the length, and no fewer
      bytes would do. */
  lemma Utf8Form(c: char)
    ensures var b, n := Utf8Char(c), c as int;
      && |b| == (if n < 128 then 1 else if n < 2048 then 2 else if n < 65536 then 3 else 4)
      && (|b| == 2 ==> 194 <= b[0] < 224) && (|b| == 3 ==> 224 <= b[0] < 240) && (|b| == 4 ==> 240 <= b[0] < 245)
      && forall i | 1 <= i < |b| :: 128 <= b[i] < 192
  {
  }

  lemma Utf8Examples()
    ensures Utf8Char('A') == [0x41] && Utf8Char('\U{00E9}') == [0xC3, 0xA9]
    ensures Utf8Char('\U{20AC}') == [0xE2, 0x82, 0xAC] && Utf8Char('\U{1F600}') == [0xF0, 0x9F, 0x98, 0x80]
  {
  }
}

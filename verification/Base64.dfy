/** Unpadded URL-safe base64 and the lenient decoder that reads it back. */
module Base64 {
  import opened Text

  type Byte = b: int | 0 <= b < 256

  function Symbol(d: nat): (c: char)
    requires d < 64
  {
    if d < 26 then (d + 'A' as int) as char
    else if d < 52 then (d - 26 + 'a' as int) as char
    else if d < 62 then (d - 52 + '0' as int) as char
    else if d == 62 then '-' else '_'
  }

  /** The value of a data character; the standard alphabet is accepted as well. */
  function SymbolValue(c: char): (d: Option<nat>)
    ensures d.Some? ==> d.value < 64
  {
    if 'A' <= c <= 'Z' then Some(c as int - 'A' as int)
    else if 'a' <= c <= 'z' then Some(c as int - 'a' as int + 26)
    else if '0' <= c <= '9' then Some(c as int - '0' as int + 52)
    else if c == '-' || c == '+' then Some(62)
    else if c == '_' || c == '/' then Some(63)
    else None
  }

  lemma SymbolRoundTrip(d: nat)
    requires d < 64
    ensures SymbolValue(Symbol(d)) == Some(d) && Symbol(d) != '=' && Symbol(d) != '.'
  {
  }

  /** `urlsafe_b64encode` without the trailing `=`. */
  function Encode(bytes: seq<Byte>): string {
    if |bytes| == 0 then ""
    else if |bytes| == 1 then
      [Symbol(bytes[0] / 4), Symbol(bytes[0] % 4 * 16)]
    else if |bytes| == 2 then
      [Symbol(bytes[0] / 4), Symbol(bytes[0] % 4 * 16 + bytes[1] / 16), Symbol(bytes[1] % 16 * 4)]
    else
      [Symbol(bytes[0] / 4), Symbol(bytes[0] % 4 * 16 + bytes[1] / 16),
       Symbol(bytes[1] % 16 * 4 + bytes[2] / 64), Symbol(bytes[2] % 64)]
      + Encode(bytes[3..])
  }

  /** The `=` signs that complete a text to a multiple of four characters. */
  function Padding(length: nat): string {
    match length % 4
    case 0 => ""
    case 1 => "==="
    case 2 => "=="
    case _ => "="
  }

  /** The decoder's scan. `quad` is the position in the current group of four, `left` the
      bits not yet emitted, `pads` the pad signs seen since the last data character. Other
      characters are skipped; a pad that completes a group ends the input. */
  function Scan(s: string, quad: nat, left: nat, pads: nat): Option<seq<Byte>>
    requires quad < 4 && left < 64 && (quad == 2 ==> left < 16) && (quad == 3 ==> left < 4)
  {
    if s == "" then
      if quad == 0 then Some([]) else None
    else if s[0] == '=' then
      if quad >= 2 && quad + pads + 1 >= 4 then Some([])
      else Scan(s[1..], quad, left, if quad >= 2 then pads + 1 else pads)
    else
      var value := SymbolValue(s[0]);
      if value.None? then Scan(s[1..], quad, left, pads)
      else
        var d := value.value;
        match quad
        case 0 => Scan(s[1..], 1, d, 0)
        case 1 => Emit(left * 4 + d / 16, Scan(s[1..], 2, d % 16, 0))
        case 2 => Emit(left * 16 + d / 4, Scan(s[1..], 3, d % 4, 0))
        case _ => Emit(left * 64 + d, Scan(s[1..], 0, 0, 0))
  }

  function Emit(byte: Byte, rest: Option<seq<Byte>>): Option<seq<Byte>> {
    if rest.None? then None else Some([byte] + rest.value)
  }

  /** `urlsafe_b64decode` of the text completed with padding. */
  function Decode(s: string): Option<seq<Byte>> {
    Scan(s + Padding(|s|), 0, 0, 0)
  }

  // One data character of each position in a group.

  lemma {:induction false} ScanFirst(d: nat, rest: string)
    requires d < 64
    ensures Scan([Symbol(d)] + rest, 0, 0, 0) == Scan(rest, 1, d, 0)
  {
    SymbolRoundTrip(d);
    assert ([Symbol(d)] + rest)[1..] == rest;
  }

  lemma {:induction false} ScanSecond(left: nat, d: nat, rest: string)
    requires left < 64 && d < 64
    ensures Scan([Symbol(d)] + rest, 1, left, 0) == Emit(left * 4 + d / 16, Scan(rest, 2, d % 16, 0))
  {
    SymbolRoundTrip(d);
    assert ([Symbol(d)] + rest)[1..] == rest;
  }

  lemma {:induction false} ScanThird(left: nat, d: nat, rest: string)
    requires left < 16 && d < 64
    ensures Scan([Symbol(d)] + rest, 2, left, 0) == Emit(left * 16 + d / 4, Scan(rest, 3, d % 4, 0))
  {
    SymbolRoundTrip(d);
    assert ([Symbol(d)] + rest)[1..] == rest;
  }

  lemma {:induction false} ScanFourth(left: nat, d: nat, rest: string)
    requires left < 4 && d < 64
    ensures Scan([Symbol(d)] + rest, 3, left, 0) == Emit(left * 64 + d, Scan(rest, 0, 0, 0))
  {
    SymbolRoundTrip(d);
    assert ([Symbol(d)] + rest)[1..] == rest;
  }

  lemma {:induction false} ScanTwo(a: nat, b: nat, rest: string)
    requires a < 64 && b < 64
    ensures Scan([Symbol(a), Symbol(b)] + rest, 0, 0, 0) == Emit(a * 4 + b / 16, Scan(rest, 2, b % 16, 0))
  {
    hide Scan;
    assert [Symbol(a), Symbol(b)] + rest == [Symbol(a)] + ([Symbol(b)] + rest);
    ScanFirst(a, [Symbol(b)] + rest);
    ScanSecond(a, b, rest);
  }

  lemma {:induction false} ScanFour(a: nat, b: nat, c: nat, d: nat, rest: string)
    requires a < 64 && b < 64 && c < 64 && d < 64
    ensures Scan([Symbol(a), Symbol(b), Symbol(c), Symbol(d)] + rest, 0, 0, 0)
         == Emit(a * 4 + b / 16, Emit(b % 16 * 16 + c / 4, Emit(c % 4 * 64 + d, Scan(rest, 0, 0, 0))))
  {
    hide Scan;
    assert [Symbol(a), Symbol(b), Symbol(c), Symbol(d)] + rest
        == [Symbol(a), Symbol(b)] + ([Symbol(c)] + ([Symbol(d)] + rest));
    ScanTwo(a, b, [Symbol(c)] + ([Symbol(d)] + rest));
    ScanThird(b % 16, c, [Symbol(d)] + rest);
    ScanFourth(c % 4, d, rest);
  }

  lemma ScanEnd()
    ensures Scan("==", 2, 0, 0) == Some([]) && Scan("=", 3, 0, 0) == Some([])
  {
    assert "=="[1..] == "=";
  }

  /** Decoding what was encoded gives the bytes back. */
  lemma {:induction false} RoundTrip(bytes: seq<Byte>)
    ensures Decode(Encode(bytes)) == Some(bytes)
  {
    if |bytes| == 1 {
      OneByte(bytes[0]);
      assert bytes == [bytes[0]];
    } else if |bytes| == 2 {
      TwoBytes(bytes[0], bytes[1]);
      assert bytes == [bytes[0], bytes[1]];
    } else if |bytes| > 2 {
      RoundTrip(bytes[3..]);
      ThreeBytes(bytes[0], bytes[1], bytes[2], Encode(bytes[3..]), bytes[3..]);
      assert bytes == [bytes[0], bytes[1], bytes[2]] + bytes[3..];
    }
  }

  lemma OneByte(x: Byte)
    ensures Decode([Symbol(x / 4), Symbol(x % 4 * 16)]) == Some([x])
  {
    hide Scan;
    var a, b := x / 4, x % 4 * 16;
    assert a * 4 + b / 16 == x && b % 16 == 0;
    var s := [Symbol(a), Symbol(b)];
    assert Padding(|s|) == "==";
    assert Decode(s) == Scan(s + "==", 0, 0, 0);
    assert [x] + [] == [x];
    ScanTwo(a, b, "==");
    ScanEnd();
  }

  lemma TwoBytes(x: Byte, y: Byte)
    ensures Decode([Symbol(x / 4), Symbol(x % 4 * 16 + y / 16), Symbol(y % 16 * 4)]) == Some([x, y])
  {
    hide Scan;
    var a, b, c := x / 4, x % 4 * 16 + y / 16, y % 16 * 4;
    assert [Symbol(a), Symbol(b), Symbol(c)] + "=" == [Symbol(a), Symbol(b)] + ([Symbol(c)] + "=");
    ScanTwo(a, b, [Symbol(c)] + "=");
    ScanThird(b % 16, c, "=");
    ScanEnd();
    assert a * 4 + b / 16 == x && b % 16 * 16 + c / 4 == y && c % 4 == 0;
    var s := [Symbol(a), Symbol(b), Symbol(c)];
    assert Padding(|s|) == "=";
    assert Decode(s) == Scan(s + "=", 0, 0, 0);
    assert [x] + ([y] + []) == [x, y];
  }

  /** The bits of three bytes, taken six at a time. */
  lemma SixBits(x: Byte, y: Byte, z: Byte)
    ensures var a, b, c, d := x / 4, x % 4 * 16 + y / 16, y % 16 * 4 + z / 64, z % 64;
      && a < 64 && b < 64 && c < 64 && d < 64
      && a * 4 + b / 16 == x && b % 16 * 16 + c / 4 == y && c % 4 * 64 + d == z
  {
  }

  /** A group of four characters in front does not disturb the rest. */
  lemma GroupInFront(a: nat, b: nat, c: nat, d: nat, text: string)
    requires a < 64 && b < 64 && c < 64 && d < 64
    ensures Decode([Symbol(a), Symbol(b), Symbol(c), Symbol(d)] + text)
         == Emit(a * 4 + b / 16, Emit(b % 16 * 16 + c / 4, Emit(c % 4 * 64 + d, Decode(text))))
  {
    hide Scan, Symbol;
    var group := [Symbol(a), Symbol(b), Symbol(c), Symbol(d)];
    assert Padding(|group + text|) == Padding(|text|);
    assert (group + text) + Padding(|text|) == group + (text + Padding(|text|));
    ScanFour(a, b, c, d, text + Padding(|text|));
  }

  lemma ThreeBytes(x: Byte, y: Byte, z: Byte, text: string, rest: seq<Byte>)
    requires Decode(text) == Some(rest)
    ensures Decode([Symbol(x / 4), Symbol(x % 4 * 16 + y / 16), Symbol(y % 16 * 4 + z / 64), Symbol(z % 64)] + text)
         == Some([x, y, z] + rest)
  {
    hide Decode, Symbol;
    SixBits(x, y, z);
    GroupInFront(x / 4, x % 4 * 16 + y / 16, y % 16 * 4 + z / 64, z % 64, text);
    assert [x] + ([y] + ([z] + rest)) == [x, y, z] + rest;
  }

  /** Encodings are non-dotted and determine the bytes. */
  lemma {:induction false} Injective(a: seq<Byte>, b: seq<Byte>)
    requires Encode(a) == Encode(b)
    ensures a == b
  {
    RoundTrip(a);
    RoundTrip(b);
  }

  lemma {:induction false} NoDot(bytes: seq<Byte>)
    ensures '.' !in Encode(bytes)
  {
    if |bytes| >= 3 {
      NoDot(bytes[3..]);
    }
  }

  // ---- The encoding itself ----

  /** The URL-safe alphabet of RFC 4648, section 5: four runs of consecutive characters. */
  lemma SymbolsInOrder(d: nat)
    requires d < 63
    ensures Symbol(0) == 'A' && Symbol(25) == 'Z' && Symbol(26) == 'a' && Symbol(51) == 'z'
    ensures Symbol(52) == '0' && Symbol(61) == '9' && Symbol(62) == '-' && Symbol(63) == '_'
    ensures d != 25 && d != 51 && d != 61 && d != 62 ==> Symbol(d + 1) as int == Symbol(d) as int + 1
  {
  }

  lemma SixBitsNumber(x: Byte, y: Byte, z: Byte)
    ensures var a, b, c, d := x / 4, x % 4 * 16 + y / 16, y % 16 * 4 + z / 64, z % 64;
      a * 262144 + b * 4096 + c * 64 + d == x * 65536 + y * 256 + z
  {
    assert x == x / 4 * 4 + x % 4 && y == y / 16 * 16 + y % 16 && z == z / 64 * 64 + z % 64;
  }

  /** Three bytes are four symbols of the same number, in base 64. */
  lemma {:induction false} GroupOfThree(x: Byte, y: Byte, z: Byte, rest: seq<Byte>)
    returns (a: nat, b: nat, c: nat, d: nat)
    ensures a < 64 && b < 64 && c < 64 && d < 64
    ensures a * 262144 + b * 4096 + c * 64 + d == x * 65536 + y * 256 + z
    ensures Encode([x, y, z] + rest) == [Symbol(a), Symbol(b), Symbol(c), Symbol(d)] + Encode(rest)
  {
    a, b, c, d := x / 4, x % 4 * 16 + y / 16, y % 16 * 4 + z / 64, z % 64;
    SixBits(x, y, z);
    SixBitsNumber(x, y, z);
    EncodeThree(x, y, z, rest);
    hide Symbol, Encode;
  }

  lemma {:induction false} EncodeThree(x: Byte, y: Byte, z: Byte, rest: seq<Byte>)
    ensures Encode([x, y, z] + rest) ==
      [Symbol(x / 4), Symbol(x % 4 * 16 + y / 16), Symbol(y % 16 * 4 + z / 64), Symbol(z % 64)] + Encode(rest)
  {
    hide Symbol;
    var bytes := [x, y, z] + rest;
    assert bytes[0] == x && bytes[1] == y && bytes[2] == z && bytes[3..] == rest;
  }

  /** Two bytes are three symbols, one byte is two, with zero bits at the end. */
  lemma {:induction false} GroupOfTwo(x: Byte, y: Byte) returns (a: nat, b: nat, c: nat)
    ensures a < 64 && b < 64 && c < 64 && a * 4096 + b * 64 + c == (x * 256 + y) * 4
    ensures Encode([x, y]) == [Symbol(a), Symbol(b), Symbol(c)]
  {
    a, b, c := x / 4, x % 4 * 16 + y / 16, y % 16 * 4;
    assert x == x / 4 * 4 + x % 4 && y == y / 16 * 16 + y % 16;
    EncodeTwo(x, y);
    hide Symbol, Encode;
  }

  lemma {:induction false} EncodeTwo(x: Byte, y: Byte)
    ensures Encode([x, y]) == [Symbol(x / 4), Symbol(x % 4 * 16 + y / 16), Symbol(y % 16 * 4)]
    ensures Encode([x]) == [Symbol(x / 4), Symbol(x % 4 * 16)]
  {
    hide Symbol;
    assert [x, y][0] == x && [x, y][1] == y && [x][0] == x;
  }

  lemma {:induction false} GroupOfOne(x: Byte) returns (a: nat, b: nat)
    ensures a < 64 && b < 64 && a * 64 + b == x * 16
    ensures Encode([x]) == [Symbol(a), Symbol(b)]
  {
    a, b := x / 4, x % 4 * 16;
    EncodeTwo(x, x);
    hide Symbol, Encode;
  }
}

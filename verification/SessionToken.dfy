/** The signed GUI session cookie: printed as four dot-separated parts and accepted only
    when printing what was read gives the same text again. */
module SessionToken {
  import opened Text
  import Base64
  import opened Utf8Text

  // ---- Reading an integer ----

  predicate IsSpace(c: char) { c == ' ' || 9 <= c as int <= 13 }

  function Stripped(s: string): string {
    if s != "" && IsSpace(s[0]) then Stripped(s[1..])
    else if s != "" && IsSpace(s[|s| - 1]) then Stripped(s[..|s| - 1])
    else s
  }

  /** Digits with single underscores between them. */
  predicate IsNumeral(s: string) {
    && s != "" && IsDigit(s[0]) && IsDigit(s[|s| - 1])
    && forall i | 0 <= i < |s| :: IsDigit(s[i]) || (s[i] == '_' && 0 < i && s[i - 1] != '_')
  }

  function DigitsOf(s: string): (r: string)
    requires forall i | 0 <= i < |s| :: IsDigit(s[i]) || s[i] == '_'
    ensures forall c | c in r :: IsDigit(c)
  {
    if s == "" then "" else (if s[0] == '_' then "" else [s[0]]) + DigitsOf(s[1..])
  }

  /** `int(text)` for ASCII text: spaces around, a sign and underscores are tolerated. */
  function ReadInt(text: string): Option<int> {
    var s := Stripped(text);
    var signed := s != "" && (s[0] == '-' || s[0] == '+');
    var body := if signed then s[1..] else s;
    if !IsNumeral(body) then None
    else Some(if signed && s[0] == '-' then -(Value(DigitsOf(body)) as int) else Value(DigitsOf(body)))
  }

  lemma {:induction false} DigitsStay(s: string)
    requires forall i | 0 <= i < |s| :: IsDigit(s[i])
    ensures DigitsOf(s) == s
  {
    if s != "" {
      DigitsStay(s[1..]);
      assert s == [s[0]] + s[1..];
    }
  }

  lemma {:induction false} NumeralStays(digits: string)
    requires digits != "" && forall c | c in digits :: IsDigit(c)
    ensures IsNumeral(digits) && DigitsOf(digits) == digits
    ensures Stripped(digits) == digits && Stripped("-" + digits) == "-" + digits
  {
    forall i | 0 <= i < |digits| ensures IsDigit(digits[i]) {
      assert digits[i] in digits;
    }
    DigitsStay(digits);
    assert ("-" + digits)[|digits|] == digits[|digits| - 1];
  }

  lemma ReadSigned(n: int)
    ensures ReadInt(Signed(n)) == Some(n)
  {
    var size := if n < 0 then -n else n;
    NumeralStays(Decimal(size));
    DecimalRoundTrip(size);
    hide Stripped, IsNumeral, DigitsOf, Decimal, Value;
    if n < 0 {
      assert ("-" + Decimal(size))[1..] == Decimal(size);
    } else {
      assert IsDigit(Decimal(size)[0]) by {
        assert Decimal(size)[0] in Decimal(size);
      }
    }
  }

  // ---- The token ----

  const SESSION_SECONDS := 12 * 60 * 60

  predicate IsKind(kind: string) { kind == "email" || kind == "id" || kind == "none" }

  function Payload(kind: string, value: string, expiry: int): string {
    "gui:" + kind + ":" + value + ":" + Signed(expiry)
  }

  /** `sign` stands for the keyed digest of the payload. */
  function Token(sign: string -> string, kind: string, value: string, expiry: int): string {
    kind + "." + Base64.Encode(Utf8(value)) + "." + Signed(expiry) + "." + sign(Payload(kind, value, expiry))
  }

  /** The text before and after the first dot. */
  function Cut(s: string): (r: Option<(string, string)>)
    ensures r.Some? ==> s == r.value.0 + "." + r.value.1 && '.' !in r.value.0
    ensures r.None? ==> '.' !in s
  {
    if s == "" then None
    else if s[0] == '.' then
      assert s == "" + "." + s[1..];
      Some(("", s[1..]))
    else
      var rest := Cut(s[1..]);
      assert s == [s[0]] + s[1..];
      if rest.None? then None else Some(([s[0]] + rest.value.0, rest.value.1))
  }

  /** Read a token at a moment when the clock shows `now`, and `later` when it is looked at
      for the second bound. */
  function Parse(sign: string -> string, token: string, now: int, later: int): Option<(string, string)> {
    var first := Cut(token);
    if first.None? then None
    else
      var second := Cut(first.value.1);
      if second.None? then None
      else
        var third := Cut(second.value.1);
        if third.None? then None
        else
          var kind := first.value.0;
          var bytes := Base64.Decode(second.value.0);
          if !IsKind(kind) || bytes.None? then None
          else
            var value, expiry := FromUtf8(bytes.value), ReadInt(third.value.0);
            if value.None? || expiry.None? then None
            else if !(now < expiry.value <= later + SESSION_SECONDS) then None
            else if token != Token(sign, kind, value.value, expiry.value) then None
            else Some((kind, value.value))
  }

  lemma {:induction false} CutBack(a: string, b: string)
    requires '.' !in a
    ensures Cut(a + "." + b) == Some((a, b))
  {
    var s := a + "." + b;
    if a == "" {
      assert s[1..] == b;
    } else {
      CutBack(a[1..], b);
      assert s[1..] == a[1..] + "." + b;
      assert a == [a[0]] + a[1..];
    }
  }

  lemma SignedHasNoDot(n: int)
    ensures '.' !in Signed(n) && ':' !in Signed(n)
  {
  }

  lemma {:induction false} TokenCuts(kind: string, encoded: string, expiry: int, signature: string)
    requires '.' !in kind && '.' !in encoded
    ensures var token := kind + "." + encoded + "." + Signed(expiry) + "." + signature;
      && Cut(token) == Some((kind, encoded + "." + (Signed(expiry) + "." + signature)))
      && Cut(encoded + "." + (Signed(expiry) + "." + signature)) == Some((encoded, Signed(expiry) + "." + signature))
      && Cut(Signed(expiry) + "." + signature) == Some((Signed(expiry), signature))
  {
    hide Cut, Signed;
    SignedHasNoDot(expiry);
    CutBack(Signed(expiry), signature);
    CutBack(encoded, Signed(expiry) + "." + signature);
    CutBack(kind, encoded + "." + (Signed(expiry) + "." + signature));
    assert kind + "." + encoded + "." + Signed(expiry) + "." + signature
        == kind + "." + (encoded + "." + (Signed(expiry) + "." + signature));
  }

  /** A token reads back as its kind and value exactly while its expiry lies in the
      accepted window. */
  lemma IssuedParses(sign: string -> string, kind: string, value: string, expiry: int, now: int, later: int)
    requires IsKind(kind)
    ensures Parse(sign, Token(sign, kind, value, expiry), now, later) ==
      if now < expiry <= later + SESSION_SECONDS then Some((kind, value)) else None
  {
    hide Cut, Signed, Utf8, FromUtf8, ReadInt;
    Base64.NoDot(Utf8(value));
    TokenCuts(kind, Base64.Encode(Utf8(value)), expiry, sign(Payload(kind, value, expiry)));
    Base64.RoundTrip(Utf8(value));
    Utf8RoundTrip(value);
    ReadSigned(expiry);
  }

  /** A token issued at `issued` without an explicit expiry is accepted at every moment
      from then until it expires. */
  lemma ValidForItsLifetime(sign: string -> string, kind: string, value: string, issued: int, now: int, later: int)
    requires IsKind(kind) && issued <= now <= later && now < issued + SESSION_SECONDS
    ensures Parse(sign, Token(sign, kind, value, issued + SESSION_SECONDS), now, later) == Some((kind, value))
  {
    IssuedParses(sign, kind, value, issued + SESSION_SECONDS, now, later);
  }

  /** Accepted are exactly the printed tokens: no second spelling of any part gets in. */
  lemma AcceptedAreIssued(sign: string -> string, token: string, now: int, later: int, kind: string, value: string)
    ensures Parse(sign, token, now, later) == Some((kind, value)) <==>
      && IsKind(kind)
      && exists expiry :: now < expiry <= later + SESSION_SECONDS && token == Token(sign, kind, value, expiry)
  {
    if IsKind(kind) {
      forall expiry | now < expiry <= later + SESSION_SECONDS && token == Token(sign, kind, value, expiry)
        ensures Parse(sign, token, now, later) == Some((kind, value))
      {
        IssuedParses(sign, kind, value, expiry, now, later);
      }
    }
  }

  lemma {:induction false} LastColon(a: string, b: string, x: string, y: string)
    requires a + ":" + x == b + ":" + y && ':' !in x && ':' !in y
    ensures a == b && x == y
  {
    var s := a + ":" + x;
    // In both readings the colon is the last one of the text.
    forall i | |a| < i < |s| ensures s[i] != ':' {
      assert s[i] == x[i - |a| - 1];
    }
    forall i | |b| < i < |s| ensures s[i] != ':' {
      assert s[i] == y[i - |b| - 1];
    }
    assert s[|a|] == ':' && s[|b|] == ':';
    assert a == s[..|a|] && b == s[..|b|];
    assert x == s[|a| + 1..] && y == s[|b| + 1..];
  }

  /** What is signed determines kind, value and expiry, whatever colons the value holds. */
  lemma PayloadInjective(k: string, v: string, e: int, k': string, v': string, e': int)
    requires IsKind(k) && IsKind(k') && Payload(k, v, e) == Payload(k', v', e')
    ensures k == k' && v == v' && e == e'
  {
    SignedHasNoDot(e);
    SignedHasNoDot(e');
    LastColon("gui:" + k + ":" + v, "gui:" + k' + ":" + v', Signed(e), Signed(e'));
    SignedInjective(e, e');
    var s := "gui:" + k + ":" + v;
    assert s[4] == k[0] == k'[0];
    assert v == s[4 + |k| + 1..] && v' == s[4 + |k'| + 1..];
  }

  // ---- What an accepted token is ----

  /** Whatever is accepted says so itself: after kind, value and expiry comes the signature of all
      three. */
  lemma AcceptedIsSigned(sign: string -> string, token: string, now: int, later: int, kind: string, value: string)
    returns (expiry: int)
    requires Parse(sign, token, now, later) == Some((kind, value))
    ensures now < expiry <= later + 43200
    ensures token == kind + "." + Base64.Encode(Utf8(value)) + "." + Signed(expiry) + "."
      + sign("gui:" + kind + ":" + value + ":" + Signed(expiry))
  {
    hide Cut, Signed, Utf8, FromUtf8, ReadInt;
    var third := Cut(Cut(Cut(token).value.1).value.1);
    expiry := ReadInt(third.value.0).value;
  }

  /** The text after the third dot. */
  function SignatureOf(token: string): Option<string> {
    var first := Cut(token);
    if first.None? then None
    else
      var second := Cut(first.value.1);
      if second.None? then None
      else
        var third := Cut(second.value.1);
        if third.None? then None else Some(third.value.1)
  }

  lemma {:induction false} SignatureIsLast(kind: string, encoded: string, expiry: int, signature: string)
    requires '.' !in kind && '.' !in encoded
    ensures SignatureOf(kind + "." + encoded + "." + Signed(expiry) + "." + signature) == Some(signature)
  {
    hide Cut, Signed;
    TokenCuts(kind, encoded, expiry, signature);
  }

  /** The signature of an accepted token is that of its kind, value and expiry. */
  lemma AcceptedSignature(sign: string -> string, token: string, now: int, later: int, kind: string, value: string)
    returns (expiry: int)
    requires Parse(sign, token, now, later) == Some((kind, value))
    ensures IsKind(kind) && now < expiry <= later + 43200
    ensures SignatureOf(token) == Some(sign("gui:" + kind + ":" + value + ":" + Signed(expiry)))
    ensures token == kind + "." + Base64.Encode(Utf8(value)) + "." + Signed(expiry) + "." + SignatureOf(token).value
  {
    hide Signed, Utf8, SignatureOf;
    expiry := AcceptedIsSigned(sign, token, now, later, kind, value);
    hide Cut;
    Base64.NoDot(Utf8(value));
    var payload := "gui:" + kind + ":" + value + ":" + Signed(expiry);
    SignatureIsLast(kind, Base64.Encode(Utf8(value)), expiry, sign(payload));
  }

  /** If no two texts have the same signature, the signature of an accepted token tells its kind and
      value: nobody can put another value under it. */
  lemma SignatureDetermines(sign: string -> string, token: string, other: string, now: int, later: int,
      now': int, later': int, kind: string, value: string, kind': string, value': string)
    requires forall x, y | sign(x) == sign(y) :: x == y
    requires Parse(sign, token, now, later) == Some((kind, value))
    requires Parse(sign, other, now', later') == Some((kind', value'))
    requires SignatureOf(token) == SignatureOf(other)
    ensures kind == kind' && value == value' && token == other
  {
    hide Parse, SignatureOf, Signed, Utf8, IsKind;
    var e := AcceptedSignature(sign, token, now, later, kind, value);
    var e' := AcceptedSignature(sign, other, now', later', kind', value');
    hide Payload;
    PayloadIs(kind, value, e);
    PayloadIs(kind', value', e');
    PayloadInjective(kind, value, e, kind', value', e');
  }

  lemma PayloadIs(kind: string, value: string, expiry: int)
    ensures Payload(kind, value, expiry) == "gui:" + kind + ":" + value + ":" + Signed(expiry)
  {
  }
}

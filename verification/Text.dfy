/** Strings as the programs order and print them: code-point order, sorted key
    lists, and decimal numerals. */
module Text {

  datatype Option<+T> = None | Some(value: T)

  datatype Result<+T, +E> = Ok(value: T) | Err(error: E)

  /** Code-point order on strings, as Python's `<=` on `str`. */
  predicate Below(a: string, b: string) {
    a == [] || (b != [] && (a[0] < b[0] || (a[0] == b[0] && Below(a[1..], b[1..]))))
  }

  lemma {:induction false} BelowTotal(a: string, b: string)
    ensures Below(a, b) || Below(b, a)
  {
    if a != [] && b != [] && a[0] == b[0] {
      BelowTotal(a[1..], b[1..]);
    }
  }

  lemma {:induction false} BelowAntisymmetric(a: string, b: string)
    requires Below(a, b) && Below(b, a)
    ensures a == b
  {
    if a != [] {
      BelowAntisymmetric(a[1..], b[1..]);
      assert a == [a[0]] + a[1..] && b == [b[0]] + b[1..];
    }
  }

  lemma {:induction false} BelowTransitive(a: string, b: string, c: string)
    requires Below(a, b) && Below(b, c)
    ensures Below(a, c)
  {
    if a != [] && a[0] == b[0] == c[0] {
      BelowTransitive(a[1..], b[1..], c[1..]);
    }
  }

  /** The order goes by the first place where the strings differ. */
  lemma {:induction false} BelowExactly(a: string, b: string)
    ensures Below(a, b) <==> a <= b || exists k: nat :: DiffersAt(a, b, k) && a[k] < b[k]
  {
    if a != [] && b != [] && a[0] == b[0] {
      var a', b' := a[1..], b[1..];
      BelowExactly(a', b');
      assert a == [a[0]] + a' && b == [b[0]] + b';
      if k: nat :| DiffersAt(a, b, k) && a[k] < b[k] {
        assert a[..k][1..] == a'[..k - 1] && b[..k][1..] == b'[..k - 1];
        assert DiffersAt(a', b', k - 1);
      }
      if k: nat :| DiffersAt(a', b', k) && a'[k] < b'[k] {
        assert a[..k + 1] == [a[0]] + a'[..k] && b[..k + 1] == [b[0]] + b'[..k];
        assert DiffersAt(a, b, k + 1);
      }
    } else {
      assert a != [] && b != [] ==> DiffersAt(a, b, 0);
    }
  }

  /** `k` is the first place where the strings differ. */
  predicate DiffersAt(a: string, b: string, k: nat) {
    k < |a| && k < |b| && a[..k] == b[..k] && a[k] != b[k]
  }

  predicate IsLeast(k: string, s: set<string>) {
    k in s && forall j | j in s :: Below(k, j)
  }

  lemma {:induction false} LeastExists(s: set<string>)
    requires s != {}
    ensures exists k :: IsLeast(k, s)
  {
    var x :| x in s;
    BelowTotal(x, x);
    if s == {x} {
      assert IsLeast(x, s);
    } else {
      LeastExists(s - {x});
      var y :| IsLeast(y, s - {x});
      BelowTotal(x, y);
      var k := if Below(x, y) then x else y;
      forall j | j in s ensures Below(k, j) {
        if j != x && k == x {
          BelowTransitive(x, y, j);
        }
      }
      assert IsLeast(k, s);
    }
  }

  /** The first key of a non-empty set in code-point order. */
  function Least(s: set<string>): (k: string)
    requires s != {}
    ensures IsLeast(k, s)
  {
    LeastExists(s);
    assert forall i, j | IsLeast(i, s) && IsLeast(j, s) :: i == j by {
      forall i, j | IsLeast(i, s) && IsLeast(j, s) ensures i == j {
        BelowAntisymmetric(i, j);
      }
    }
    var k :| k in s && IsLeast(k, s);
    k
  }

  predicate Ascending(keys: seq<string>) {
    forall i, j | 0 <= i < j < |keys| :: Below(keys[i], keys[j]) && keys[i] != keys[j]
  }

  /** `sorted(s)` for a set of strings. */
  function Sorted(s: set<string>): (keys: seq<string>)
    ensures forall i | 0 <= i < |keys| :: keys[i] in s
    ensures |keys| == |s|
  {
    if s == {} then []
    else
      var k := Least(s);
      [k] + Sorted(s - {k})
  }

  /** Where a member of `s` stands in `sorted(s)`. */
  function Position(s: set<string>, k: string): (i: nat)
    requires k in s
    ensures i < |s| && Sorted(s)[i] == k
  {
    var least := Least(s);
    if k == least then 0 else 1 + Position(s - {least}, k)
  }

  lemma {:induction false} SortedAscending(s: set<string>)
    ensures Ascending(Sorted(s))
  {
    if s != {} {
      var k := Least(s);
      var rest := Sorted(s - {k});
      SortedAscending(s - {k});
      forall i, j | 0 <= i < j < |Sorted(s)|
        ensures Below(Sorted(s)[i], Sorted(s)[j]) && Sorted(s)[i] != Sorted(s)[j]
      {
        assert rest[j - 1] in s - {k};
      }
    }
  }

  lemma {:induction false} SortedDistinct(s: set<string>)
    ensures forall i, j | 0 <= i < j < |s| :: Sorted(s)[i] != Sorted(s)[j]
  {
    SortedAscending(s);
  }

  /** A strictly ascending listing of a set is unique, so any correct sort gives `Sorted`. */
  lemma {:induction false} SortedUnique(s: set<string>, keys: seq<string>)
    requires Ascending(keys)
    requires forall k :: k in keys <==> k in s
    ensures keys == Sorted(s)
  {
    if keys != [] {
      assert keys[0] in s;
      var k := Least(s);
      assert k in keys;
      var i :| 0 <= i < |keys| && keys[i] == k;
      if i > 0 {
        BelowAntisymmetric(k, keys[0]);
      }
      var rest := keys[1..];
      assert keys == [k] + rest;
      forall x ensures x in rest <==> x in s - {k} {
        if x in rest {
          var j :| 0 <= j < |rest| && rest[j] == x;
          assert keys[j + 1] == x;
          assert x in keys;
        }
        if x in s - {k} {
          assert x in keys;
        }
      }
      SortedUnique(s - {k}, rest);
    }
  }

  // ---- Decimal numerals ----

  function Digit(d: nat): (c: char)
    requires d < 10
    ensures '0' <= c <= '9'
  {
    (d + '0' as int) as char
  }

  predicate IsDigit(c: char) { '0' <= c <= '9' }

  /** `str(n)` for a natural number. */
  function Decimal(n: nat): (s: string)
    ensures s != [] && forall c | c in s :: IsDigit(c)
  {
    if n < 10 then [Digit(n)] else Decimal(n / 10) + [Digit(n % 10)]
  }

  function DigitValue(c: char): (d: nat)
    requires IsDigit(c)
    ensures d < 10
  {
    (c as int) - ('0' as int)
  }

  /** `int(s)` for a string of ASCII digits. */
  function Value(s: string): nat
    requires forall c | c in s :: IsDigit(c)
  {
    if s == [] then 0 else 10 * Value(s[..|s| - 1]) + DigitValue(s[|s| - 1])
  }

  /** Reading back a printed natural number gives the number, so printing is injective. */
  lemma {:induction false} DecimalRoundTrip(n: nat)
    ensures Value(Decimal(n)) == n
  {
    if n < 10 {
      assert Decimal(n)[..0] == [];
      assert Value(Decimal(n)[..0]) == 0;
    } else {
      DecimalRoundTrip(n / 10);
      var s := Decimal(n);
      assert s[..|s| - 1] == Decimal(n / 10);
    }
  }

  /** `str(n)` for any integer. */
  function Signed(n: int): (s: string)
    ensures s != []
  {
    if n < 0 then "-" + Decimal(-n) else Decimal(n)
  }

  /** How numbers print. */
  lemma DecimalExample()
    ensures Decimal(9_876_543_210) == "9876543210" && Signed(-17) == "-17"
  {
    assert Decimal(9) == "9" && Decimal(98) == "98" && Decimal(987) == "987" && Decimal(9876) == "9876";
    assert Decimal(98765) == "98765" && Decimal(987654) == "987654" && Decimal(9876543) == "9876543";
    assert Decimal(98765432) == "98765432" && Decimal(987654321) == "987654321";
    assert Decimal(17) == "17";
  }

  lemma {:induction false} SignedInjective(m: int, n: int)
    requires Signed(m) == Signed(n)
    ensures m == n
  {
    SignedSign(m);
    SignedSign(n);
    if m < 0 {
      assert Decimal(-m) == Signed(m)[1..] == Signed(n)[1..] == Decimal(-n);
      DecimalRoundTrip(-m);
      DecimalRoundTrip(-n);
    } else {
      DecimalRoundTrip(m);
      DecimalRoundTrip(n);
    }
  }

  lemma SignedSign(n: int)
    ensures Signed(n)[0] == '-' <==> n < 0
  {
    if n >= 0 {
      assert Decimal(n)[0] in Decimal(n);
    }
  }
}

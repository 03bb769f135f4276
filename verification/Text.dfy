/** Characters, decimal numbers and the order of std::string. */
module Text {
  import opened Sequences

  predicate IsDigit(c: char) {
    '0' <= c <= '9'
  }

  predicate IsHex(c: char) {
    IsDigit(c) || 'a' <= c <= 'f' || 'A' <= c <= 'F'
  }

  predicate AllDigits(s: string) {
    forall i | 0 <= i < |s| :: IsDigit(s[i])
  }

  predicate AllHex(s: string) {
    forall i | 0 <= i < |s| :: IsHex(s[i])
  }

  // ----- decimal numbers -----

  function DigitChar(d: nat): (c: char)
    requires d < 10
    ensures IsDigit(c) && DigitValue(c) == d
  {
    ('0' as int + d) as char
  }

  function DigitValue(c: char): nat
    requires IsDigit(c)
  {
    c as int - '0' as int
  }

  /** std::to_string on an unsigned number. */
  function Decimal(n: nat): string {
    if n < 10 then [DigitChar(n)] else Decimal(n / 10) + [DigitChar(n % 10)]
  }

  /** The number a digit string stands for, leading zeros allowed. */
  function DecimalValue(s: string): nat
    requires AllDigits(s)
  {
    if s == "" then 0 else 10 * DecimalValue(s[..|s| - 1]) + DigitValue(s[|s| - 1])
  }

  /** A digit string without a superfluous leading zero. */
  predicate IsCanonical(s: string) {
    s != "" && AllDigits(s) && (|s| > 1 ==> s[0] != '0')
  }

  lemma {:induction false} DecimalRoundTrip(n: nat)
    ensures IsCanonical(Decimal(n)) && DecimalValue(Decimal(n)) == n
    ensures n > 0 ==> Decimal(n)[0] != '0'
  {
    if n < 10 {
      assert Decimal(n)[..0] == "";
    } else {
      DecimalRoundTrip(n / 10);
      var s := Decimal(n);
      assert s[..|s| - 1] == Decimal(n / 10);
    }
  }

  lemma LastDigit(n: nat, d: nat)
    requires d < 10
    ensures (10 * n + d) / 10 == n && (10 * n + d) % 10 == d
  {
  }

  lemma DecimalLast(n: nat, d: nat)
    requires d < 10
    ensures Decimal(10 * n + d) == (if n == 0 then "" else Decimal(n)) + [DigitChar(d)]
  {
    LastDigit(n, d);
  }

  lemma {:induction false} CanonicalRoundTrip(s: string)
    requires IsCanonical(s)
    ensures Decimal(DecimalValue(s)) == s
    ensures s[0] != '0' ==> DecimalValue(s) > 0
  {
    hide Decimal;
    var front, last := s[..|s| - 1], s[|s| - 1];
    assert s == front + [last];
    DecimalLast(DecimalValue(front), DigitValue(last));
    if front != "" {
      CanonicalRoundTrip(front);
    }
  }

  // ----- the order of std::string -----

  /** operator< of std::string: lexicographic, by character code. */
  predicate StringLess(a: string, b: string) {
    if b == "" then false
    else if a == "" then true
    else if a[0] != b[0] then a[0] < b[0]
    else StringLess(a[1..], b[1..])
  }

  lemma {:induction false} StringLessIrreflexive(a: string)
    ensures !StringLess(a, a)
  {
    if a != "" {
      StringLessIrreflexive(a[1..]);
    }
  }

  lemma {:induction false} StringLessTotal(a: string, b: string)
    ensures a == b || StringLess(a, b) || StringLess(b, a)
    ensures !(StringLess(a, b) && StringLess(b, a))
  {
    if a != "" && b != "" && a[0] == b[0] {
      StringLessTotal(a[1..], b[1..]);
      assert a == [a[0]] + a[1..] && b == [b[0]] + b[1..];
    }
  }

  lemma {:induction false} StringLessTransitive(a: string, b: string, c: string)
    requires StringLess(a, b) && StringLess(b, c)
    ensures StringLess(a, c)
  {
    if a != "" && a[0] == b[0] == c[0] {
      StringLessTransitive(a[1..], b[1..], c[1..]);
    }
  }

  /** The order is the lexicographic one by character code: the first character that differs decides, and a
      proper prefix is smaller. */
  lemma {:induction false} StringLessIff(a: string, b: string)
    ensures StringLess(a, b) <==> Lexicographic(a, b, (c, d) => c < d)
  {
    LexicographicStep(a, b, (c, d) => c < d);
    if a != "" && b != "" {
      StringLessIff(a[1..], b[1..]);
    }
  }

  // ----- the keys of a std::map, in iteration order -----

  ghost predicate IsMin(k: string, s: set<string>) {
    k in s && forall x | x in s :: x == k || StringLess(k, x)
  }

  lemma {:induction false} MinExists(s: set<string>)
    requires s != {}
    ensures exists k :: IsMin(k, s)
    decreases s
  {
    var x :| x in s;
    var rest := s - {x};
    if rest == {} {
      assert s == {x};
      assert IsMin(x, s);
    } else {
      MinExists(rest);
      var k :| IsMin(k, rest);
      StringLessTotal(x, k);
      if StringLess(k, x) {
        assert IsMin(k, s);
      } else {
        forall y | y in s ensures y == x || StringLess(x, y) {
          if y != x && y != k {
            StringLessTransitive(x, k, y);
          }
        }
        assert IsMin(x, s);
      }
    }
  }

  lemma MinUnique(a: string, b: string, s: set<string>)
    requires IsMin(a, s) && IsMin(b, s)
    ensures a == b
  {
    StringLessTotal(a, b);
  }

  function MinKey(s: set<string>): (k: string)
    requires s != {}
    ensures IsMin(k, s)
  {
    MinExists(s);
    assert forall a, b | IsMin(a, s) && IsMin(b, s) :: a == b by {
      forall a, b | IsMin(a, s) && IsMin(b, s) ensures a == b {
        MinUnique(a, b, s);
      }
    }
    assert forall a | a in s && (forall x | x in s :: x == a || StringLess(a, x)) :: IsMin(a, s);
    var k :| k in s && forall x | x in s :: x == k || StringLess(k, x);
    k
  }

  /** The keys of a std::map in the order of its iterators. */
  function SortedKeys(s: set<string>): (keys: seq<string>)
    ensures |keys| == |s|
    decreases |s|
  {
    if s == {} then [] else
      var k := MinKey(s);
      [k] + SortedKeys(s - {k})
  }

  predicate StrictlySorted(keys: seq<string>) {
    forall i, j | 0 <= i < j < |keys| :: StringLess(keys[i], keys[j])
  }

  lemma {:induction false} SortedKeysElements(s: set<string>)
    ensures forall k :: k in SortedKeys(s) <==> k in s
    ensures StrictlySorted(SortedKeys(s))
    decreases |s|
  {
    if s != {} {
      var k := MinKey(s);
      SortedKeysElements(s - {k});
      var rest := SortedKeys(s - {k});
      assert SortedKeys(s) == [k] + rest;
      forall x ensures x in SortedKeys(s) <==> x in s {
        assert x in [k] + rest <==> x == k || x in rest;
      }
    }
  }

  lemma SortedIsDistinct(keys: seq<string>)
    requires StrictlySorted(keys)
    ensures Distinct(keys)
  {
    forall i, j | 0 <= i < j < |keys| ensures keys[i] != keys[j] {
      StringLessIrreflexive(keys[i]);
    }
  }

  /** Each key of a map is visited exactly once, at a definite place. */
  lemma KeysOnce(s: set<string>)
    ensures forall k :: k in SortedKeys(s) <==> k in s
    ensures Distinct(SortedKeys(s))
  {
    SortedKeysElements(s);
    SortedIsDistinct(SortedKeys(s));
  }
}

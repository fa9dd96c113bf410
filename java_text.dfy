/** Java string ordering and the sorted listings derived from it
    (TreeMap iteration, sorted directory listings). */
module JavaText {

  /** String.compareTo(a, b) <= 0: lexicographic order on characters,
      a proper prefix coming first. */
  predicate LessEq(a: string, b: string)
    decreases |a|
  {
    a == [] || (b != [] && (a[0] < b[0] || (a[0] == b[0] && LessEq(a[1..], b[1..]))))
  }

  predicate Less(a: string, b: string) { LessEq(a, b) && a != b }

  /** String.startsWith. */
  predicate StartsWith(s: string, prefix: string) {
    |prefix| <= |s| && s[..|prefix|] == prefix
  }

  lemma {:induction false} LessEqReflexive(a: string)
    ensures LessEq(a, a)
    decreases |a|
  {
    if a != [] {
      LessEqReflexive(a[1..]);
    }
  }

  lemma {:induction false} LessEqAntisymmetric(a: string, b: string)
    requires LessEq(a, b) && LessEq(b, a)
    ensures a == b
    decreases |a|
  {
    if a != [] && b != [] {
      LessEqAntisymmetric(a[1..], b[1..]);
      assert a == [a[0]] + a[1..] && b == [b[0]] + b[1..];
    }
  }

  lemma {:induction false} LessEqTransitive(a: string, b: string, c: string)
    requires LessEq(a, b) && LessEq(b, c)
    ensures LessEq(a, c)
    decreases |a|
  {
    if a != [] && b != [] && c != [] && a[0] == b[0] && b[0] == c[0] {
      LessEqTransitive(a[1..], b[1..], c[1..]);
    }
  }

  lemma {:induction false} LessEqTotal(a: string, b: string)
    ensures LessEq(a, b) || LessEq(b, a)
    decreases |a|
  {
    if a != [] && b != [] && a[0] == b[0] {
      LessEqTotal(a[1..], b[1..]);
    }
  }

  lemma LessEqAntisymmetricAll()
    ensures forall a: string, b: string :: LessEq(a, b) && LessEq(b, a) ==> a == b
  {
    forall a: string, b: string | LessEq(a, b) && LessEq(b, a)
      ensures a == b
    {
      LessEqAntisymmetric(a, b);
    }
  }

  predicate IsLeast(m: string, s: set<string>) {
    m in s && forall x :: x in s ==> LessEq(m, x)
  }

  /** Every finite non-empty set of strings has a least element. */
  lemma {:induction false} LeastExists(s: set<string>)
    requires s != {}
    ensures exists m :: IsLeast(m, s)
    decreases |s|
  {
    var y :| y in s;
    if s == {y} {
      LessEqReflexive(y);
      assert IsLeast(y, s);
    } else {
      LeastExists(s - {y});
      var m :| IsLeast(m, s - {y});
      LessEqTotal(m, y);
      if LessEq(m, y) {
        assert IsLeast(m, s);
      } else {
        forall x | x in s ensures LessEq(y, x) {
          if x != y { LessEqTransitive(y, m, x); } else { LessEqReflexive(y); }
        }
        assert IsLeast(y, s);
      }
    }
  }

  function Least(s: set<string>): (m: string)
    requires s != {}
    ensures IsLeast(m, s)
  {
    LeastExists(s);
    LessEqAntisymmetricAll();
    var m :| IsLeast(m, s); m
  }

  predicate StrictlySorted(r: seq<string>) {
    forall i, j :: 0 <= i < j < |r| ==> Less(r[i], r[j])
  }

  /** The keys of a TreeMap, or the names a sorted directory listing returns,
      in ascending order (lemmas SortedKeysAscending, SortedKeysLength). */
  function SortedKeys(s: set<string>): (r: seq<string>)
    ensures forall x :: x in r <==> x in s
    decreases |s|
  {
    if s == {} then []
    else
      var m := Least(s);
      [m] + SortedKeys(s - {m})
  }

  lemma {:induction false} SortedKeysAscending(s: set<string>)
    ensures StrictlySorted(SortedKeys(s))
    decreases |s|
  {
    if s != {} {
      var m := Least(s);
      var rest := SortedKeys(s - {m});
      SortedKeysAscending(s - {m});
      assert SortedKeys(s) == [m] + rest;
      forall i | 0 <= i < |rest| ensures Less(m, rest[i]) {
        assert rest[i] in s - {m};
      }
    }
  }

  lemma {:induction false} SortedKeysLength(s: set<string>)
    ensures |SortedKeys(s)| == |s|
    decreases |s|
  {
    if s != {} {
      SortedKeysLength(s - {Least(s)});
    }
  }

  /** The character of decimal digit d. */
  function DigitChar(d: int): (c: char)
    requires 0 <= d < 10
    ensures '0' <= c <= '9'
  {
    ('0' as int + d) as char
  }

  /** The decimal digits of n, most significant first, without leading
      zeros. */
  function Digits(n: nat): (s: string)
    ensures |s| >= 1 && forall i :: 0 <= i < |s| ==> '0' <= s[i] <= '9'
    decreases n
  {
    if n < 10 then [DigitChar(n)] else Digits(n / 10) + [DigitChar(n % 10)]
  }

  /** String.valueOf(int), Integer.toString: a minus sign for a negative
      number, then its decimal digits. */
  function IntString(x: int): (s: string)
  {
    if x < 0 then "-" + Digits(-x) else Digits(x)
  }

  /** The value of a string of decimal digits. */
  function DigitsValue(s: string): int
  {
    if s == [] then 0 else DigitsValue(s[..|s| - 1]) * 10 + (s[|s| - 1] as int - '0' as int)
  }

  /** Integer.parseInt on what IntString produces. */
  function ParseInt(s: string): int
  {
    if s != [] && s[0] == '-' then -DigitsValue(s[1..]) else DigitsValue(s)
  }

  lemma {:induction false} DigitsRoundTrip(n: nat)
    ensures DigitsValue(Digits(n)) == n
    decreases n
  {
    if n >= 10 {
      DigitsRoundTrip(n / 10);
      var s := Digits(n);
      assert s[..|s| - 1] == Digits(n / 10);
    }
  }

  /** Reading back the decimal text of x gives x. */
  lemma IntStringRoundTrip(x: int)
    ensures ParseInt(IntString(x)) == x
  {
    if x < 0 {
      DigitsRoundTrip(-x);
      assert IntString(x)[1..] == Digits(-x);
    } else {
      DigitsRoundTrip(x);
    }
  }
}

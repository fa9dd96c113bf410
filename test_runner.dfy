/** The pure helpers the three copies of the course's test runner share:
    the edit distance used to tolerate small differences in output, the
    removal of carriage returns from file contents, and the removal of one
    trailing newline before output is shown. A Python None is None of an
    Option. */
module TestRunner {
  import opened Wrappers

  /** The smallest of three numbers, as Python's min. */
  function Min3(x: int, y: int, z: int): (r: int)
    ensures r <= x && r <= y && r <= z
    ensures r == x || r == y || r == z
  {
    if x <= y && x <= z then x else if y <= z then y else z
  }

  /** A comparison of two characters taken as a number: 1 when they
      differ, 0 when they agree. */
  function Mismatch(a: char, b: char): nat {
    if a != b then 1 else 0
  }

  /** The Levenshtein distance between the first i characters of a and the
      first j of b: the fewest insertions, deletions and substitutions of
      one character that turn the one into the other, written as the
      recurrence on the last characters. */
  function Dist(a: string, b: string, i: nat, j: nat): nat
    requires i <= |a| && j <= |b|
    decreases i + j
  {
    if i == 0 then j
    else if j == 0 then i
    else Min3(Dist(a, b, i - 1, j) + 1,
              Dist(a, b, i, j - 1) + 1,
              Dist(a, b, i - 1, j - 1) + Mismatch(a[i - 1], b[j - 1]))
  }

  /** The Levenshtein distance between a and b. */
  function Levenshtein(a: string, b: string): nat {
    Dist(a, b, |a|, |b|)
  }

  /** Rows 0..i-1 of the table hold the distances between prefixes. */
  ghost predicate RowsDone(dist: array2<int>, s1: string, s2: string, i: int)
    reads dist
    requires dist.Length0 == |s1| + 1 && dist.Length1 == |s2| + 1
  {
    forall r, c {:trigger dist[r, c]} :: 0 <= r < i && r <= |s1| && 0 <= c <= |s2| ==> dist[r, c] == Dist(s1, s2, r, c)
  }

  /** editDistance(s1, s2): builds the table dist, where dist[i, j] is the
      distance between the first i characters of s1 and the first j of
      s2; row 0 and column 0 are the distances to an empty prefix, and the
      other rows are filled in order. */
  method EditDistance(s1: string, s2: string) returns (d: int)
    ensures d == Levenshtein(s1, s2)
  {
    var m, n := |s1|, |s2|;
    var dist := new int[m + 1, n + 1];
    for j := 0 to n + 1
      invariant forall c :: 0 <= c < j ==> dist[0, c] == c
    {
      dist[0, j] := j;
    }
    for i := 1 to m + 1
      invariant forall c :: 0 <= c <= n ==> dist[0, c] == c
      invariant forall r :: 1 <= r < i ==> dist[r, 0] == r
    {
      dist[i, 0] := i;
    }
    for i := 1 to m + 1
      invariant RowsDone(dist, s1, s2, i)
      invariant forall r :: i <= r <= m ==> dist[r, 0] == r
    {
      FillRow(dist, s1, s2, i);
    }
    d := dist[m, n];
  }

  /** The inner loop of editDistance: row i from column 1 on, each cell from
      the one above, the one to the left and the one diagonally before. */
  method FillRow(dist: array2<int>, s1: string, s2: string, i: int)
    requires dist.Length0 == |s1| + 1 && dist.Length1 == |s2| + 1 && 1 <= i <= |s1|
    requires RowsDone(dist, s1, s2, i) && dist[i, 0] == i
    modifies dist
    ensures RowsDone(dist, s1, s2, i + 1)
    ensures forall r :: i < r < dist.Length0 ==> dist[r, 0] == old(dist[r, 0])
  {
    var n := |s2|;
    for j := 1 to n + 1
      invariant RowsDone(dist, s1, s2, i)
      invariant forall c {:trigger dist[i, c]} :: 0 <= c < j ==> dist[i, c] == Dist(s1, s2, i, c)
      invariant forall r :: i < r < dist.Length0 ==> dist[r, 0] == old(dist[r, 0])
    {
      var up, left, diag := dist[i - 1, j], dist[i, j - 1], dist[i - 1, j - 1];
      assert up == Dist(s1, s2, i - 1, j) && diag == Dist(s1, s2, i - 1, j - 1);
      dist[i, j] := Min3(up + 1, left + 1, diag + Mismatch(s1[i - 1], s2[j - 1]));
    }
  }

  /** The distance is zero exactly between equal prefixes. */
  lemma {:induction false} DistZeroIff(a: string, b: string, i: nat, j: nat)
    requires i <= |a| && j <= |b|
    ensures Dist(a, b, i, j) == 0 <==> a[..i] == b[..j]
    decreases i + j
  {
    if i > 0 && j > 0 {
      DistZeroIff(a, b, i - 1, j - 1);
      assert a[..i] == a[..i - 1] + [a[i - 1]] && b[..j] == b[..j - 1] + [b[j - 1]];
      if a[..i] == b[..j] {
        assert a[..i][..i - 1] == a[..i - 1] && b[..j][..j - 1] == b[..j - 1];
        assert a[..i][i - 1] == a[i - 1] && b[..j][j - 1] == b[j - 1];
      }
    }
  }

  /** The distance never exceeds the longer length. */
  lemma {:induction false} DistAtMostMax(a: string, b: string, i: nat, j: nat)
    requires i <= |a| && j <= |b|
    ensures Dist(a, b, i, j) <= if i >= j then i else j
    decreases i + j
  {
    if i > 0 && j > 0 {
      DistAtMostMax(a, b, i - 1, j - 1);
    }
  }

  /** ... and is at least the difference of the lengths. */
  lemma {:induction false} DistAtLeastLengthGap(a: string, b: string, i: nat, j: nat)
    requires i <= |a| && j <= |b|
    ensures Dist(a, b, i, j) >= i - j && Dist(a, b, i, j) >= j - i
    decreases i + j
  {
    if i > 0 && j > 0 {
      DistAtLeastLengthGap(a, b, i - 1, j);
      DistAtLeastLengthGap(a, b, i, j - 1);
      DistAtLeastLengthGap(a, b, i - 1, j - 1);
    }
  }

  /** What editDistance promises its callers: the length of the other
      string against an empty one, zero exactly between equal strings, and
      a value between the difference of the lengths and the longer
      length. */
  lemma LevenshteinProperties(a: string, b: string)
    ensures Levenshtein(a, "") == |a| && Levenshtein("", b) == |b|
    ensures Levenshtein(a, b) == 0 <==> a == b
    ensures Levenshtein(a, b) <= if |a| >= |b| then |a| else |b|
    ensures Levenshtein(a, b) >= |a| - |b| && Levenshtein(a, b) >= |b| - |a|
  {
    DistZeroIff(a, b, |a|, |b|);
    assert a[..|a|] == a && b[..|b|] == b;
    DistAtMostMax(a, b, |a|, |b|);
    DistAtLeastLengthGap(a, b, |a|, |b|);
  }

  /** re.sub('\r', '', s): s with every carriage return deleted. */
  function RemoveCarriageReturns(s: string): (r: string)
    ensures '\r' !in r
    ensures forall c :: c != '\r' ==> multiset(r)[c] == multiset(s)[c]
  {
    if s == [] then []
    else
      assert s == [s[0]] + s[1..];
      (if s[0] == '\r' then [] else [s[0]]) + RemoveCarriageReturns(s[1..])
  }

  /** Deleting carriage returns works piece by piece, so the characters
      that stay keep their order. */
  lemma {:induction false} RemoveCarriageReturnsConcat(a: string, b: string)
    ensures RemoveCarriageReturns(a + b) == RemoveCarriageReturns(a) + RemoveCarriageReturns(b)
  {
    if a != [] {
      assert (a + b)[0] == a[0] && (a + b)[1..] == a[1..] + b;
      RemoveCarriageReturnsConcat(a[1..], b);
      var x := if a[0] == '\r' then [] else [a[0]];
      assert RemoveCarriageReturns(a) == x + RemoveCarriageReturns(a[1..]);
      assert RemoveCarriageReturns(a + b) == x + RemoveCarriageReturns(a[1..] + b);
    } else {
      assert a + b == b;
    }
  }

  /** A string without carriage returns is left as it is. */
  lemma {:induction false} RemoveCarriageReturnsKeeps(s: string)
    requires '\r' !in s
    ensures RemoveCarriageReturns(s) == s
  {
    if s != [] {
      assert s[0] in s;
      assert forall c :: c in s[1..] ==> c in s;
      RemoveCarriageReturnsKeeps(s[1..]);
    }
  }

  /** canonicalize(s): None stays None; text loses its carriage returns
      and no other character. */
  function Canonicalize(s: Option<string>): (r: Option<string>)
    ensures r.None? <==> s.None?
    ensures r.Some? ==> '\r' !in r.value
    ensures r.Some? ==> forall c :: c != '\r' ==> multiset(r.value)[c] == multiset(s.value)[c]
  {
    if s.None? then None else Some(RemoveCarriageReturns(s.value))
  }

  /** Canonical text is canonical already. */
  lemma CanonicalizeIdempotent(s: Option<string>)
    ensures Canonicalize(Canonicalize(s)) == Canonicalize(s)
  {
    if s.Some? {
      RemoveCarriageReturnsKeeps(RemoveCarriageReturns(s.value));
    }
  }

  /** chop_nl(s): one trailing newline removed, when there is one. */
  function ChopNl(s: string): (r: string)
    ensures |s| > 0 && s[|s| - 1] == '\n' ==> r + "\n" == s
    ensures !(|s| > 0 && s[|s| - 1] == '\n') ==> r == s
  {
    if |s| > 0 && s[|s| - 1] == '\n' then s[..|s| - 1] else s
  }

  /** Only one newline goes: text ending in two keeps the first. */
  lemma ChopNlOnce(s: string)
    ensures ChopNl(s + "\n") == s
    ensures ChopNl(s + "\n\n") == s + "\n"
  {
    assert (s + "\n")[..|s|] == s;
    assert (s + "\n\n")[..|s| + 1] == s + "\n";
  }
}

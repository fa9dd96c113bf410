/** The integer part of the random utilities of the world-building project:
    uniform draws with their argument checks, Fisher-Yates shuffles of a
    whole array or of a subarray, random permutations, and a draw from a
    discrete distribution given by integer frequencies. The generator is
    the oracle of JavaRandom, so every property holds whatever it answers.
    An IllegalArgumentException is a Failure carrying its message. */
module RandomUtils {
  import opened Wrappers
  import opened JavaInt
  import opened JavaRandom

  /** uniform(random, n): a draw in [0, n); n <= 0 is refused before any
      draw is made. */
  method Uniform(rnd: Random, n: int) returns (r: Result<int, string>)
    requires rnd.InRange()
    modifies rnd
    ensures n <= 0 ==> r.Failure? && rnd.calls == old(rnd.calls)
    ensures n > 0 ==> r.Success? && 0 <= r.value < n
    ensures n > 0 ==> r.value == rnd.draw(old(rnd.calls), n) && rnd.calls == old(rnd.calls) + 1
  {
    if n <= 0 {
      return Failure("argument must be positive");
    }
    var v := rnd.NextInt(n);
    r := Success(v);
  }

  /** uniform(random, a, b): a draw in [a, b). An empty range, or one of
      Integer.MAX_VALUE numbers or more, is refused; b - a is computed
      exactly, as the Java method widens it to a long. */
  method UniformBetween(rnd: Random, a: int, b: int) returns (r: Result<int, string>)
    requires rnd.InRange() && InInt(a) && InInt(b)
    modifies rnd
    ensures r.Failure? <==> b <= a || b - a >= INT_MAX
    ensures r.Success? ==> a <= r.value < b && InInt(r.value)
    ensures r.Success? ==> r.value == a + rnd.draw(old(rnd.calls), b - a)
  {
    if b <= a || b - a >= INT_MAX {
      return Failure("invalid range");
    }
    var u := Uniform(rnd, b - a);
    r := Success(a + u.value);
  }

  /** validateSubarrayIndices: the bounds are accepted exactly when
      0 <= lo <= hi <= length, so they delimit a subarray; an empty one,
      lo == hi, is accepted too. */
  function ValidateSubarrayIndices(lo: int, hi: int, length: int): (o: Outcome<string>)
    ensures o == Pass <==> 0 <= lo <= hi <= length
  {
    if lo < 0 || hi > length || lo > hi then Fail("subarray indices out of bounds") else Pass
  }

  /** Swapping two places of a sequence keeps its multiset of elements. */
  lemma SwapKeepsMultiset<T>(s: seq<T>, i: int, j: int)
    requires 0 <= i < |s| && 0 <= j < |s|
    ensures multiset(s[i := s[j]][j := s[i]]) == multiset(s)
  {
  }

  /** shuffle(random, a), for Object[], double[], int[] and char[] alike:
      place i takes the element of a random place in [i, n). The array
      ends as a permutation of what it held; a null array is refused. */
  method Shuffle<T>(rnd: Random, a: array?<T>) returns (o: Outcome<string>)
    requires rnd.InRange()
    modifies rnd, a
    ensures a == null <==> o.Fail?
    ensures a != null ==> multiset(a[..]) == multiset(old(a[..]))
  {
    if a == null {
      return Fail("argument is null");
    }
    var n := a.Length;
    for i := 0 to n
      invariant multiset(a[..]) == multiset(old(a[..]))
    {
      var u := Uniform(rnd, n - i);
      var r := i + u.value;
      SwapKeepsMultiset(a[..], i, r);
      a[i], a[r] := a[r], a[i];
    }
    o := Pass;
  }

  /** shuffle(random, a, lo, hi): the same on a[lo..hi); the cells outside
      keep their elements. Bad bounds and a null array are refused before
      anything changes. */
  method ShuffleRange<T>(rnd: Random, a: array?<T>, lo: int, hi: int) returns (o: Outcome<string>)
    requires rnd.InRange()
    modifies rnd, a
    ensures o == Pass <==> a != null && 0 <= lo <= hi <= a.Length
    ensures o == Pass ==> multiset(a[lo..hi]) == multiset(old(a[lo..hi]))
    ensures o == Pass ==> a[..lo] == old(a[..lo]) && a[hi..] == old(a[hi..])
    ensures o.Fail? && a != null ==> a[..] == old(a[..])
  {
    if a == null {
      return Fail("argument is null");
    }
    o := ValidateSubarrayIndices(lo, hi, a.Length);
    if o.Fail? {
      return;
    }
    for i := lo to hi
      invariant multiset(a[lo..hi]) == multiset(old(a[lo..hi]))
      invariant forall j :: 0 <= j < a.Length && (j < lo || hi <= j) ==> a[j] == old(a[j])
    {
      var u := Uniform(rnd, hi - i);
      var r := i + u.value;
      ghost var s := a[..];
      a[i], a[r] := a[r], a[i];
      assert a[..] == s[i := s[r]][r := s[i]];
      SwapInSlice(s, lo, hi, i, r);
    }
    assert a[..lo] == old(a[..lo]);
    assert a[hi..] == old(a[hi..]);
  }

  /** Swapping two places inside s[lo..hi) keeps the multiset of that
      slice. */
  lemma SwapInSlice<T>(s: seq<T>, lo: int, hi: int, i: int, j: int)
    requires 0 <= lo <= i < hi <= |s| && lo <= j < hi
    ensures multiset(s[i := s[j]][j := s[i]][lo..hi]) == multiset(s[lo..hi])
  {
    var t := s[lo..hi];
    SwapKeepsMultiset(t, i - lo, j - lo);
    assert s[i := s[j]][j := s[i]][lo..hi] == t[i - lo := t[j - lo]][j - lo := t[i - lo]];
  }

  /** 0, 1, ..., n - 1. */
  function Range(n: nat): (s: seq<int>)
    ensures |s| == n && forall i :: 0 <= i < n ==> s[i] == i
  {
    seq(n, i => i)
  }

  /** No value occurs twice. */
  predicate Distinct(s: seq<int>) {
    forall i, j :: 0 <= i < j < |s| ==> s[i] != s[j]
  }

  /** A sequence with the multiset of 0..n-1 holds each of them exactly
      once. */
  lemma PermutationOfRange(s: seq<int>, n: nat)
    requires multiset(s) == multiset(Range(n))
    ensures |s| == n && Distinct(s) && forall i :: 0 <= i < |s| ==> 0 <= s[i] < n
  {
    assert |s| == |multiset(s)| == |multiset(Range(n))| == n;
    forall i | 0 <= i < |s|
      ensures 0 <= s[i] < n
    {
      assert s[i] in multiset(s);
      assert s[i] in Range(n);
    }
    forall i, j | 0 <= i < j < |s|
      ensures s[i] != s[j]
    {
      if s[i] == s[j] {
        TwiceInMultiset(s, i, j);
        RangeOnce(n, s[i]);
        assert false;
      }
    }
  }

  /** A value at two places is counted at least twice. */
  lemma TwiceInMultiset(s: seq<int>, i: int, j: int)
    requires 0 <= i < j < |s| && s[i] == s[j]
    ensures multiset(s)[s[i]] >= 2
  {
    assert s == s[..j] + [s[j]] + s[j + 1..];
    assert s[i] == s[..j][i];
    assert multiset(s[..j])[s[i]] >= 1;
  }

  /** 0..n-1 holds every value at most once. */
  lemma {:induction false} RangeOnce(n: nat, v: int)
    ensures multiset(Range(n))[v] <= 1
  {
    if n > 0 {
      RangeOnce(n - 1, v);
      assert Range(n) == Range(n - 1) + [n - 1];
      if v == n - 1 {
        assert v !in Range(n - 1);
      }
    }
  }

  /** permutation(random, n): 0..n-1 written in order and then shuffled, so
      each of them exactly once; a negative n is refused. */
  method Permutation(rnd: Random, n: int) returns (r: Result<seq<int>, string>)
    requires rnd.InRange()
    modifies rnd
    ensures r.Success? <==> n >= 0
    ensures r.Success? ==> multiset(r.value) == multiset(Range(n))
  {
    if n < 0 {
      return Failure("argument is negative");
    }
    var perm := new int[n];
    for i := 0 to n
      invariant forall j :: 0 <= j < i ==> perm[j] == j
    {
      perm[i] := i;
    }
    assert perm[..] == Range(n);
    var o := Shuffle(rnd, perm);
    r := Success(perm[..]);
  }

  /** The values of permutation(random, n): each of 0..n-1 exactly once. */
  method PermutationValues(rnd: Random, n: int) returns (r: Result<seq<int>, string>)
    requires rnd.InRange()
    modifies rnd
    ensures r.Success? <==> n >= 0
    ensures r.Success? ==> |r.value| == n && Distinct(r.value)
    ensures r.Success? ==> forall i :: 0 <= i < n ==> 0 <= r.value[i] < n
  {
    r := Permutation(rnd, n);
    if r.Success? {
      PermutationOfRange(r.value, n);
    }
  }

  /** permutation(random, n, k): k distinct values from [0, n). The first
      loop keeps perm[..i] a shuffle of 0..i-1; the second lets i in
      [k, n) replace a random place when the draw falls below k. A
      negative n, or k outside [0, n], is refused. */
  method PermutationK(rnd: Random, n: int, k: int) returns (r: Result<seq<int>, string>)
    requires rnd.InRange()
    modifies rnd
    ensures r.Success? <==> 0 <= k <= n
    ensures r.Success? ==> |r.value| == k && Distinct(r.value)
    ensures r.Success? ==> forall i :: 0 <= i < k ==> 0 <= r.value[i] < n
  {
    if n < 0 {
      return Failure("argument is negative");
    }
    if k < 0 || k > n {
      return Failure("k must be between 0 and n");
    }
    var perm := new int[k];
    for i := 0 to k
      invariant forall j :: 0 <= j < i ==> 0 <= perm[j] < i
      invariant forall j, l :: 0 <= j < l < i ==> perm[j] != perm[l]
    {
      var u := Uniform(rnd, i + 1);
      var r := u.value;
      perm[i] := perm[r];
      perm[r] := i;
    }
    for i := k to n
      invariant forall j :: 0 <= j < k ==> 0 <= perm[j] < i
      invariant forall j, l :: 0 <= j < l < k ==> perm[j] != perm[l]
    {
      var u := Uniform(rnd, i + 1);
      var r := u.value;
      if r < k {
        perm[r] := i;
      }
    }
    r := Success(perm[..]);
  }

  /** The sum of the frequencies, added from the front. */
  function Sum(f: seq<int>): int
  {
    if f == [] then 0 else Sum(f[..|f| - 1]) + f[|f| - 1]
  }

  lemma SumPrefix(f: seq<int>, i: int)
    requires 0 <= i < |f|
    ensures Sum(f[..i + 1]) == Sum(f[..i]) + f[i]
  {
    assert f[..i + 1][..i] == f[..i];
  }

  /** With no negative frequency, the prefix sums never decrease. */
  lemma {:induction false} SumMonotone(f: seq<int>, i: int, j: int)
    requires 0 <= i <= j <= |f| && forall m :: 0 <= m < |f| ==> f[m] >= 0
    ensures Sum(f[..i]) <= Sum(f[..j])
    decreases j - i
  {
    if i < j {
      SumMonotone(f, i, j - 1);
      SumPrefix(f, j - 1);
    }
  }

  /** Where discrete(random, f) lands for the draw r: the index i whose
      prefix sums satisfy Sum(f[..i]) <= r < Sum(f[..i + 1]). Such an index
      holds a positive frequency, so indices are hit in proportion to their
      frequencies. */
  predicate LandsAt(f: seq<int>, r: int, i: int)
  {
    0 <= i < |f| && Sum(f[..i]) <= r < Sum(f[..i + 1])
  }

  /** Only an index with a positive frequency can be landed on. */
  lemma LandsAtPositive(f: seq<int>, r: int, i: int)
    requires LandsAt(f, r, i)
    ensures f[i] > 0
  {
    SumPrefix(f, i);
  }

  /** With no negative frequency, every draw in [0, total) lands somewhere. */
  lemma {:induction false} LandsAtExists(f: seq<int>, r: int)
    requires forall m :: 0 <= m < |f| ==> f[m] >= 0
    requires 0 <= r < Sum(f)
    ensures exists i :: LandsAt(f, r, i)
  {
    var n := |f|;
    var g := f[..n - 1];
    assert f[..n] == f;
    SumPrefix(f, n - 1);
    if r < Sum(g) {
      LandsAtExists(g, r);
      var i :| LandsAt(g, r, i);
      assert g[..i] == f[..i] && g[..i + 1] == f[..i + 1];
      assert LandsAt(f, r, i);
    } else {
      assert LandsAt(f, r, n - 1);
    }
  }

  /** ... and at one index only, so index i takes exactly the f[i] draws
      from Sum(f[..i]) on. */
  lemma LandsAtUnique(f: seq<int>, r: int, i: int, j: int)
    requires forall m :: 0 <= m < |f| ==> f[m] >= 0
    requires LandsAt(f, r, i) && LandsAt(f, r, j)
    ensures i == j
  {
    if i < j {
      SumMonotone(f, i + 1, j);
    } else if j < i {
      SumMonotone(f, j + 1, i);
    }
  }

  /** The argument checks of discrete: a null array, a negative entry, an
      all-zero array or a total of Integer.MAX_VALUE or more is refused.
      The total is a Java long, which cannot overflow for an array
      of ints; it is exact here. */
  predicate DiscreteRefuses(f: seq<int>)
  {
    (exists m :: 0 <= m < |f| && f[m] < 0) || Sum(f) == 0 || Sum(f) >= INT_MAX
  }

  /** discrete(random, f): draws r in [0, total) and returns the first index
      whose running sum passes r. */
  method Discrete(rnd: Random, frequencies: array?<int>) returns (r: Result<int, string>)
    requires rnd.InRange()
    modifies rnd
    ensures frequencies == null ==> r.Failure?
    ensures frequencies != null ==> (r.Failure? <==> DiscreteRefuses(frequencies[..]))
    ensures r.Success? ==> (frequencies != null &&
      LandsAt(frequencies[..], rnd.draw(old(rnd.calls), Sum(frequencies[..])), r.value) &&
      frequencies[r.value] > 0)
  {
    if frequencies == null {
      return Failure("argument array is null");
    }
    var f := frequencies;
    ghost var fs := f[..];
    var sum := 0;
    for i := 0 to f.Length
      invariant sum == Sum(fs[..i]) && forall m :: 0 <= m < i ==> fs[m] >= 0
      invariant rnd.calls == old(rnd.calls)
    {
      if f[i] < 0 {
        return Failure("array entry must be nonnegative");
      }
      SumPrefix(fs, i);
      sum := sum + f[i];
    }
    assert fs[..f.Length] == fs;
    SumMonotone(fs, 0, f.Length);
    assert fs[..0] == [];
    if sum == 0 {
      return Failure("at least one array entry must be positive");
    }
    if sum >= INT_MAX {
      return Failure("sum of frequencies overflows an int");
    }
    var u := Uniform(rnd, sum);
    var x := u.value;
    assert x == rnd.draw(old(rnd.calls), Sum(fs));
    sum := 0;
    for i := 0 to f.Length
      invariant sum == Sum(fs[..i]) && sum <= x
    {
      SumPrefix(fs, i);
      sum := sum + f[i];
      if sum > x {
        assert LandsAt(fs, x, i);
        return Success(i);
      }
    }
    assert false;
  }
}

/** String helpers of the BSTMap lab: lower-case tests, the alphabetical
    successor of a string, and random lower-case strings. Java strings are
    sequences of UTF-16 code units, Char16 here, so that char + 1 wraps as
    Java's compound assignment does. */
module StringUtils {
  import opened Wrappers
  import opened JavaRandom

  /** A Java char: one UTF-16 code unit. */
  newtype Char16 = c: int | 0 <= c < 0x1_0000

  const ALPHABET_SIZE: int := 26
  /** 'a' and 'z'. */
  const A: Char16 := 97
  const Z: Char16 := 122

  /** The Java text of a Dafny string literal whose characters are code
      units. */
  function Utf16(s: string): (t: seq<Char16>)
    requires forall i :: 0 <= i < |s| ==> s[i] as int < 0x1_0000
    ensures |t| == |s| && forall i :: 0 <= i < |s| ==> t[i] as int == s[i] as int
  {
    seq(|s|, i requires 0 <= i < |s| => s[i] as int as Char16)
  }

  /** n copies of 'a'. */
  function As(n: nat): (s: seq<Char16>)
  {
    seq(n, i => A)
  }

  /** isLowerCase: the pattern [a-z]* matches s, one character at a time;
      that is, every character lies in 'a'..'z', and "" is lower-case. */
  function IsLowerCase(s: seq<Char16>): (b: bool)
    ensures b <==> forall i :: 0 <= i < |s| ==> A <= s[i] <= Z
  {
    s == [] || (A <= s[0] <= Z && IsLowerCase(s[1..]))
  }

  /** isAllzs: the pattern [z]+ matches s; that is, s is not empty and every
      character is 'z'. */
  function IsAllzs(s: seq<Char16>): (b: bool)
    ensures b <==> s != [] && forall i :: 0 <= i < |s| ==> s[i] == Z
  {
    s != [] && s[0] == Z && (|s| == 1 || IsAllzs(s[1..]))
  }

  /** Java's x += 1 on a char: the code unit after c, wrapping at 0xFFFF. */
  function Inc16(c: Char16): (d: Char16)
    ensures c < 0xFFFF ==> d as int == c as int + 1
  {
    ((c as int + 1) % 0x1_0000) as Char16
  }

  /** The last position at or before p that does not hold 'z', or -1. */
  function LastNonZ(s: seq<Char16>, p: int): (q: int)
    requires -1 <= p < |s|
    ensures -1 <= q <= p
    ensures q >= 0 ==> s[q] != Z
    ensures forall i :: q < i <= p ==> s[i] == Z
    decreases p + 1
  {
    if p < 0 then -1 else if s[p] != Z then p else LastNonZ(s, p - 1)
  }

  /** LastNonZ looks at s[..p + 1] only. */
  lemma {:induction false} LastNonZPrefix(s: seq<Char16>, t: seq<Char16>, p: int)
    requires -1 <= p < |s| && p < |t| && s[..p + 1] == t[..p + 1]
    ensures LastNonZ(s, p) == LastNonZ(t, p)
    decreases p + 1
  {
    if p >= 0 {
      assert s[p] == s[..p + 1][p] == t[..p + 1][p] == t[p];
      if s[p] == Z {
        assert s[..p] == s[..p + 1][..p] == t[..p + 1][..p] == t[..p];
        LastNonZPrefix(s, t, p - 1);
      }
    }
  }

  /** allAs: a buffer filled with len 'a's; nothing for len <= 0. */
  method AllAs(len: int) returns (s: seq<Char16>)
    ensures s == As(if len < 0 then 0 else len)
  {
    var sb: seq<Char16> := [];
    var i := 0;
    while i < len
      invariant 0 <= i && (len >= 0 ==> i <= len) && (len < 0 ==> i == 0) && sb == As(i)
    {
      assert As(i + 1) == As(i) + [A];
      sb := sb + [A];
      i := i + 1;
    }
    assert i == if len < 0 then 0 else len;
    s := sb;
  }

  /** incrementCharArray: the run of 'z's ending at p turns into 'a's and
      the character before the run goes up by one; the characters before it
      and after p are left alone. The source fails when x[..p + 1] holds
      only 'z's, where the carry runs off the front of the array. */
  method IncrementCharArray(x: array<Char16>, p: int)
    requires 0 <= p < x.Length && LastNonZ(x[..], p) >= 0
    modifies x
    ensures var q := LastNonZ(old(x[..]), p);
      x[..] == old(x[..])[..q] + [Inc16(old(x[q]))] + As(p - q) + old(x[..])[p + 1..]
    decreases p
  {
    if x[p] != Z {
      x[p] := Inc16(x[p]);
      assert x[..] == old(x[..])[..p] + [Inc16(old(x[p]))] + As(0) + old(x[..])[p + 1..];
    } else {
      x[p] := A;
      ghost var mid := x[..];
      assert mid[..p] == old(x[..])[..p];
      LastNonZPrefix(old(x[..]), mid, p - 1);
      IncrementCharArray(x, p - 1);
      ghost var q := LastNonZ(old(x[..]), p);
      assert mid[p..] == [A] + old(x[..])[p + 1..];
      assert As(p - 1 - q) + [A] == As(p - q);
      assert mid[..q] == old(x[..])[..q];
    }
  }

  /** The shortlex rank of a lower-case string: its value as a bijective
      base-26 numeral with digits 'a' = 1 .. 'z' = 26. Consecutive ranks are
      alphabetical neighbours among strings ordered by length first. */
  function Rank(s: seq<Char16>): int
  {
    if s == [] then 0 else Rank(s[..|s| - 1]) * 26 + (s[|s| - 1] as int - A as int + 1)
  }

  /** n copies of 'z'. */
  function Zs(n: nat): (s: seq<Char16>)
  {
    seq(n, i => Z)
  }

  lemma {:induction false} RankAppend(s: seq<Char16>, c: Char16)
    ensures Rank(s + [c]) == Rank(s) * 26 + (c as int - A as int + 1)
  {
    assert (s + [c])[..|s|] == s;
  }

  /** After n 'z's comes the string of n + 1 'a's. */
  lemma {:induction false} RankAllZs(n: nat)
    ensures Rank(Zs(n)) + 1 == Rank(As(n + 1))
  {
    if n == 0 {
      assert As(1) == [] + [A];
      RankAppend([], A);
    } else {
      RankAllZs(n - 1);
      assert Zs(n) == Zs(n - 1) + [Z];
      RankAppend(Zs(n - 1), Z);
      assert As(n + 1) == As(n) + [A];
      RankAppend(As(n), A);
    }
  }

  /** Appending t scales the rank by 26^|t|. */
  lemma {:induction false} RankConcat(s: seq<Char16>, t: seq<Char16>)
    ensures Rank(s + t) == Rank(s) * Pow26(|t|) + Rank(t)
    decreases |t|
  {
    if t == [] {
      assert s + t == s;
    } else {
      var t' := t[..|t| - 1];
      var c := t[|t| - 1];
      assert t == t' + [c];
      assert s + t == (s + t') + [c];
      RankAppend(s + t', c);
      RankAppend(t', c);
      RankConcat(s, t');
      calc {
        Rank(s + t);
        Rank(s + t') * 26 + (c as int - A as int + 1);
        (Rank(s) * Pow26(|t'|) + Rank(t')) * 26 + (c as int - A as int + 1);
        { assert (Rank(s) * Pow26(|t'|)) * 26 == Rank(s) * (Pow26(|t'|) * 26); }
        Rank(s) * Pow26(|t|) + Rank(t);
      }
    }
  }

  function Pow26(n: nat): nat
  {
    if n == 0 then 1 else Pow26(n - 1) * 26
  }

  /** A run of m 'z's is one short of 26^m plus the run of m 'a's. */
  lemma {:induction false} RankZsAs(m: nat)
    ensures Rank(Zs(m)) + 1 == Pow26(m) + Rank(As(m))
  {
    if m > 0 {
      RankZsAs(m - 1);
      assert Zs(m) == Zs(m - 1) + [Z];
      RankAppend(Zs(m - 1), Z);
      assert As(m) == As(m - 1) + [A];
      RankAppend(As(m - 1), A);
    }
  }

  /** The successor step of nextString, on a lower-case string: raising the
      character before the trailing 'z's and turning those into 'a's gives
      the next lower-case string in shortlex order. */
  lemma BumpRank(s: seq<Char16>, q: int)
    requires IsLowerCase(s) && 0 <= q < |s| && s[q] != Z
    requires forall i :: q < i < |s| ==> s[i] == Z
    ensures var t := s[..q] + [Inc16(s[q])] + As(|s| - 1 - q);
      IsLowerCase(t) && Rank(t) == Rank(s) + 1
  {
    var m := |s| - 1 - q;
    var t := s[..q] + [Inc16(s[q])] + As(m);
    BumpRankSplit(s[..q], s[q], m);
    assert s == s[..q] + [s[q]] + Zs(m);
    assert forall i :: 0 <= i < |t| ==> A <= t[i] <= Z by {
      forall i | 0 <= i < |t| ensures A <= t[i] <= Z {
        if i < q {
          assert t[i] == s[i];
        } else if i > q {
          assert t[i] == A;
        }
      }
    }
  }

  /** The ranks of p + c + 'z'*m and p + (c + 1) + 'a'*m are neighbours. */
  lemma BumpRankSplit(p: seq<Char16>, c: Char16, m: nat)
    requires A <= c < Z
    ensures Rank(p + [Inc16(c)] + As(m)) == Rank(p + [c] + Zs(m)) + 1
  {
    var u, v := p + [c], p + [Inc16(c)];
    RankConcat(u, Zs(m));
    RankConcat(v, As(m));
    RankAppend(p, c);
    RankAppend(p, Inc16(c));
    RankZsAs(m);
    ScaledNeighbours(Rank(u), Rank(v), Pow26(m), Rank(Zs(m)), Rank(As(m)));
  }

  /** The arithmetic step of BumpRankSplit. */
  lemma ScaledNeighbours(r: int, r': int, k: int, zs: int, as_: int)
    requires r' == r + 1 && zs + 1 == k + as_
    ensures r' * k + as_ == r * k + zs + 1
  {
    assert r' * k == r * k + k;
  }

  /** nextString: the string right after s in alphabetical order. An
      all-'z' string is followed by one more 'a's; otherwise the length is
      kept, the trailing 'z's become 'a's, the character before them goes
      up by one and the prefix stays. For "" the Java carry indexes -1
      and fails, None here. On a lower-case string the result is the next
      lower-case string in shortlex order. */
  method NextString(s: seq<Char16>) returns (r: Option<seq<Char16>>)
    ensures IsAllzs(s) ==> r == Some(As(|s| + 1))
    ensures s == [] <==> r == None
    ensures !IsAllzs(s) && s != [] ==> var q := LastNonZ(s, |s| - 1);
      q >= 0 && r == Some(s[..q] + [Inc16(s[q])] + As(|s| - 1 - q))
    ensures IsLowerCase(s) && s != [] ==>
      r.Some? && IsLowerCase(r.value) && Rank(r.value) == Rank(s) + 1
  {
    if IsAllzs(s) {
      var t := AllAs(|s| + 1);
      assert s == Zs(|s|);
      RankAllZs(|s|);
      return Some(t);
    }
    if |s| == 0 {
      return None;
    }
    var t := CarryIncrement(s);
    r := Some(t);
    if IsLowerCase(s) {
      BumpRank(s, LastNonZ(s, |s| - 1));
    }
  }

  /** The carry step of nextString on a string that is neither empty nor
      all 'z's: the string copied into a char array, incremented at its last
      position and read back. */
  method CarryIncrement(s: seq<Char16>) returns (t: seq<Char16>)
    requires s != [] && !IsAllzs(s)
    ensures var q := LastNonZ(s, |s| - 1);
      q >= 0 && t == s[..q] + [Inc16(s[q])] + As(|s| - 1 - q)
  {
    var charVersion := new Char16[|s|](i requires 0 <= i < |s| => s[i]);
    assert charVersion[..] == s;
    IncrementCharArray(charVersion, charVersion.Length - 1);
    ghost var q := LastNonZ(s, |s| - 1);
    assert charVersion[..] == s[..q] + [Inc16(s[q])] + As(|s| - 1 - q) + s[|s|..];
    assert s[|s|..] == [];
    t := charVersion[..];
    assert t == s[..q] + [Inc16(s[q])] + As(|s| - 1 - q) + [];
  }

  /** The documented example: the string after "potato" is "potatp". */
  method NextOfPotato() returns (r: Option<seq<Char16>>)
    ensures r == Some(Utf16("potatp"))
  {
    r := NextString(Utf16("potato"));
    assert LastNonZ(Utf16("potato"), 5) == 5;
    assert Utf16("potato")[..5] + [Inc16(Utf16("potato")[5])] + As(0) == Utf16("potatp");
  }

  /** randomString: length characters, each 'a' plus the generator's next
      draw below 26. A negative length fails on the array allocation. */
  method RandomString(rnd: Random, length: int) returns (r: Option<seq<Char16>>)
    requires rnd.InRange()
    modifies rnd
    ensures length < 0 <==> r == None
    ensures r.Some? ==> |r.value| == length && IsLowerCase(r.value)
    ensures r.Some? ==> rnd.calls == old(rnd.calls) + length
    ensures r.Some? ==> forall i :: 0 <= i < length ==>
      r.value[i] as int == A as int + rnd.draw(old(rnd.calls) + i, ALPHABET_SIZE)
  {
    if length < 0 {
      return None;
    }
    var someChars := new Char16[length];
    for i := 0 to length
      invariant rnd.calls == old(rnd.calls) + i
      invariant forall j :: 0 <= j < i ==>
        A <= someChars[j] <= Z &&
        someChars[j] as int == A as int + rnd.draw(old(rnd.calls) + j, ALPHABET_SIZE)
    {
      var d := rnd.NextInt(ALPHABET_SIZE);
      someChars[i] := (d + A as int) as Char16;
    }
    r := Some(someChars[..]);
  }
}

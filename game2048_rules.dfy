/** The 2048 rules on plain values. A column is read from the side the
    board is tilted toward, so index 0 is the square tiles slide to; 0
    stands for an empty square. A grid g is indexed g[col][row]. */
module Game2048Rules {

  /** Largest piece value. */
  const MAX_PIECE := 2048

  function Sum(xs: seq<int>): int {
    if xs == [] then 0 else xs[0] + Sum(xs[1..])
  }

  lemma {:induction false} SumAppend(a: seq<int>, b: seq<int>)
    ensures Sum(a + b) == Sum(a) + Sum(b)
  {
    if a == [] {
      assert a + b == b;
    } else {
      assert (a + b)[1..] == a[1..] + b;
      SumAppend(a[1..], b);
    }
  }

  lemma {:induction false} SumZeros(n: nat)
    ensures Sum(Zeros(n)) == 0
  {
    if n > 0 {
      assert Zeros(n)[1..] == Zeros(n - 1);
      SumZeros(n - 1);
    }
  }

  function Zeros(n: nat): (z: seq<int>)
    ensures |z| == n && forall i :: 0 <= i < n ==> z[i] == 0
  {
    if n == 0 then [] else Zeros(n - 1) + [0]
  }

  predicate NoZero(vs: seq<int>) {
    forall i :: 0 <= i < |vs| ==> vs[i] != 0
  }

  /** Every empty square lies below every tile. */
  predicate Packed(ys: seq<int>) {
    forall i, j :: 0 <= i < j < |ys| && ys[i] == 0 ==> ys[j] == 0
  }

  /** The tiles of a column in order, gaps dropped. */
  function NonEmpty(xs: seq<int>): (vs: seq<int>)
    ensures |vs| <= |xs| && NoZero(vs)
  {
    if xs == [] then []
    else if xs[|xs| - 1] == 0 then NonEmpty(xs[..|xs| - 1])
    else NonEmpty(xs[..|xs| - 1]) + [xs[|xs| - 1]]
  }

  /** Equal tiles meeting in the direction of motion merge pairwise from
      the leading end, and a merged tile does not merge again. */
  function Merged(vs: seq<int>): (ms: seq<int>)
    ensures |ms| <= |vs|
  {
    if |vs| < 2 then vs
    else if vs[0] == vs[1] then [2 * vs[0]] + Merged(vs[2..])
    else [vs[0]] + Merged(vs[1..])
  }

  /** The points those merges score: the sum of the merged values. */
  function MergeScore(vs: seq<int>): int {
    if |vs| < 2 then 0
    else if vs[0] == vs[1] then 2 * vs[0] + MergeScore(vs[2..])
    else MergeScore(vs[1..])
  }

  /** The trailing tile of vs when it is left unmerged, else 0. */
  function Pending(vs: seq<int>): int {
    if |vs| == 0 then 0
    else if |vs| == 1 then vs[0]
    else if vs[0] == vs[1] then Pending(vs[2..])
    else Pending(vs[1..])
  }

  /** A column after a tilt: the merged tiles packed against the leading
      end, then empty squares. */
  function Slid(xs: seq<int>): (ys: seq<int>)
    ensures |ys| == |xs|
  {
    var ms := Merged(NonEmpty(xs));
    ms + Zeros(|xs| - |ms|)
  }

  /** The score a tilt of the column earns. */
  function SlideGain(xs: seq<int>): int {
    MergeScore(NonEmpty(xs))
  }

  // ---------------------------------------------------------------
  // The column walk of tileColumn, one square at a time from the
  // leading end: the tiles placed so far, the value the next tile may
  // still merge with (0 for none), the score gained, whether anything
  // moved, and the number of squares the next tile slides over.

  datatype SlideState = SlideState(placed: seq<int>, previous: int, gain: int,
                                   changed: bool, emptySpace: int)

  const Start := SlideState([], 0, 0, false, 0)

  /** One square of the walk. */
  function Step(st: SlideState, v: int): SlideState {
    if v == 0 then st.(emptySpace := st.emptySpace + 1)
    else if v == st.previous && st.placed != [] then
      SlideState(st.placed[..|st.placed| - 1] + [2 * v], 0, st.gain + 2 * v, true, st.emptySpace + 1)
    else
      SlideState(st.placed + [v], v, st.gain, st.changed || st.emptySpace > 0, st.emptySpace)
  }

  /** The walk over a whole column: every square walked over is either
      filled by a placed tile or counted as space the next tile slides
      over. */
  function Walk(xs: seq<int>): (st: SlideState)
    ensures st.emptySpace >= 0 && |st.placed| + st.emptySpace == |xs|
  {
    if xs == [] then Start else Step(Walk(xs[..|xs| - 1]), xs[|xs| - 1])
  }

  /** The walk over the first k squares of xs. */
  function WalkTo(xs: seq<int>, k: int): (st: SlideState)
    requires 0 <= k <= |xs|
    ensures st.emptySpace >= 0 && |st.placed| + st.emptySpace == k
    decreases k
  {
    if k == 0 then Start else Step(WalkTo(xs, k - 1), xs[k - 1])
  }

  /** WalkTo is the walk over a prefix. */
  lemma {:induction false} WalkToPrefix(xs: seq<int>, k: int)
    requires 0 <= k <= |xs|
    ensures WalkTo(xs, k) == Walk(xs[..k])
  {
    if k > 0 {
      WalkToPrefix(xs, k - 1);
      assert xs[..k][..k - 1] == xs[..k - 1];
    }
  }

  /** The column while the walk is at square k: the squares before k as
      the walk left them, and the squares not walked yet. Each tile walked
      over leaves its square and either doubles the last placed tile, when
      it merges with it, or lands just behind the placed tiles. */
  function Layout(xs: seq<int>, k: int): (ys: seq<int>)
    requires 0 <= k <= |xs|
    ensures |ys| == |xs|
    decreases k
  {
    if k == 0 then xs
    else LayoutStep(Layout(xs, k - 1), WalkTo(xs, k - 1), xs[k - 1], k - 1)
  }

  /** The column after the walk, in state st, takes the tile v from
      square j of column prev. */
  function LayoutStep(prev: seq<int>, st: SlideState, v: int, j: int): (ys: seq<int>)
    requires 0 <= j < |prev| && |st.placed| <= j
    ensures |ys| == |prev|
  {
    if v == 0 then prev
    else if v == st.previous && st.placed != [] then prev[j := 0][|st.placed| - 1 := 2 * v]
    else prev[j := 0][|st.placed| := v]
  }

  /** The layout in closed form: the placed tiles, the squares the walk
      has emptied, and the squares not walked yet. */
  lemma {:induction false} LayoutForm(xs: seq<int>, k: int)
    requires 0 <= k <= |xs|
    ensures var st := WalkTo(xs, k);
      Layout(xs, k) == st.placed + Zeros(st.emptySpace) + xs[k..]
  {
    if k == 0 {
      assert xs[0..] == xs;
    } else {
      LayoutForm(xs, k - 1);
      LayoutFormStep(xs, k);
    }
  }

  /** One step of LayoutForm: square k - 1 is empty, merges or is placed. */
  lemma LayoutFormStep(xs: seq<int>, k: int)
    requires 0 < k <= |xs|
    requires var st := WalkTo(xs, k - 1);
      Layout(xs, k - 1) == st.placed + Zeros(st.emptySpace) + xs[k - 1..]
    ensures var st := WalkTo(xs, k);
      Layout(xs, k) == st.placed + Zeros(st.emptySpace) + xs[k..]
  {
    var j := k - 1;
    assert xs[j..] == [xs[j]] + xs[k..];
    StepForm(WalkTo(xs, j), xs[j], xs[k..]);
  }

  /** A step of the walk keeps the layout in closed form. */
  lemma StepForm(st: SlideState, v: int, rest: seq<int>)
    requires st.emptySpace >= 0
    ensures var p, e, st1 := st.placed, st.emptySpace, Step(st, v);
      st1.emptySpace >= 0 &&
      LayoutStep(p + Zeros(e) + ([v] + rest), st, v, |p| + e)
        == st1.placed + Zeros(st1.emptySpace) + rest
  {
    var p, e := st.placed, st.emptySpace;
    if v == 0 {
      EmptyStep(p, e, rest);
    } else if v == st.previous && p != [] {
      MergeStep(p, e, v, rest);
    } else {
      PlaceStep(p, e, v, rest);
    }
  }

  /** What the walk finds at square k: the tile it is about to move, the
      pending tile as the last placed one, and an empty square just
      behind the placed tiles when some square has been emptied. */
  lemma StepLayout(xs: seq<int>, k: int)
    requires 0 <= k < |xs|
    ensures var st, v := WalkTo(xs, k), xs[k];
      && Layout(xs, k)[k] == v
      && (st.previous != 0 ==> |st.placed| >= 1 && Layout(xs, k)[|st.placed| - 1] == st.previous)
      && (|st.placed| < k ==> Layout(xs, k)[|st.placed|] == 0)
  {
    var st, v := WalkTo(xs, k), xs[k];
    LayoutForm(xs, k);
    WalkToPrefix(xs, k);
    WalkPrevious(xs[..k]);
    var p, e := st.placed, st.emptySpace;
    assert Layout(xs, k)[k] == xs[k..][0];
    if |p| < k {
      assert Layout(xs, k)[|p|] == Zeros(e)[0];
    }
  }

  lemma EmptyStep(p: seq<int>, e: nat, rest: seq<int>)
    ensures p + Zeros(e + 1) + rest == p + Zeros(e) + ([0] + rest)
  {
    assert Zeros(e + 1) == Zeros(e) + [0];
  }

  lemma MergeStep(p: seq<int>, e: nat, v: int, rest: seq<int>)
    requires p != []
    ensures var q := p + Zeros(e) + ([v] + rest);
      p[..|p| - 1] + [2 * v] + Zeros(e + 1) + rest == q[|p| + e := 0][|p| - 1 := 2 * v]
  {
    var q := p + Zeros(e) + ([v] + rest);
    var r := p[..|p| - 1] + [2 * v] + Zeros(e + 1) + rest;
    assert |r| == |q|;
    forall i | 0 <= i < |r|
      ensures r[i] == q[|p| + e := 0][|p| - 1 := 2 * v][i]
    {
      if i < |p| - 1 {
        assert r[i] == p[i] == q[i];
      } else if i == |p| - 1 {
      } else if i < |p| + e {
        assert r[i] == Zeros(e + 1)[i - |p|];
        assert q[i] == Zeros(e)[i - |p|];
      } else if i == |p| + e {
        assert r[i] == Zeros(e + 1)[e];
      } else {
        assert r[i] == rest[i - |p| - e - 1] == q[i];
      }
    }
  }

  lemma PlaceStep(p: seq<int>, e: nat, v: int, rest: seq<int>)
    ensures var q := p + Zeros(e) + ([v] + rest);
      p + [v] + Zeros(e) + rest == q[|p| + e := 0][|p| := v]
  {
    var q := p + Zeros(e) + ([v] + rest);
    var r := p + [v] + Zeros(e) + rest;
    assert |r| == |q|;
    forall i | 0 <= i < |r|
      ensures r[i] == q[|p| + e := 0][|p| := v][i]
    {
      if i < |p| {
        assert r[i] == p[i] == q[i];
      } else if i == |p| {
      } else if i <= |p| + e {
        assert r[i] == Zeros(e)[i - |p| - 1];
        if i < |p| + e {
          assert q[i] == Zeros(e)[i - |p|];
        }
      } else {
        assert r[i] == rest[i - |p| - e - 1] == q[i];
      }
    }
  }

  /** A pending tile is the last placed one. */
  lemma {:induction false} WalkPrevious(xs: seq<int>)
    ensures var st := Walk(xs);
      st.previous != 0 ==> st.placed != [] && st.placed[|st.placed| - 1] == st.previous
  {
    if xs != [] {
      WalkPrevious(xs[..|xs| - 1]);
    }
  }

  // ---------------------------------------------------------------
  // Properties of the reference rules.

  lemma {:induction false} MergedNoZero(vs: seq<int>)
    requires NoZero(vs)
    ensures NoZero(Merged(vs))
  {
    if |vs| >= 2 {
      if vs[0] == vs[1] { MergedNoZero(vs[2..]); } else { MergedNoZero(vs[1..]); }
    }
  }

  /** A pending tile is the last merged tile. */
  lemma {:induction false} PendingIsLast(vs: seq<int>)
    requires NoZero(vs) && Pending(vs) != 0
    ensures Merged(vs) != [] && Merged(vs)[|Merged(vs)| - 1] == Pending(vs)
  {
    if |vs| >= 2 {
      if vs[0] == vs[1] { PendingIsLast(vs[2..]); } else { PendingIsLast(vs[1..]); }
    }
  }

  /** Appending a tile behind the column: it merges with the pending tile
      when they are equal, and otherwise stays on its own. */
  lemma {:induction false} MergedSnoc(vs: seq<int>, v: int)
    requires NoZero(vs) && v != 0
    ensures var ms := Merged(vs);
      Merged(vs + [v]) == if Pending(vs) == v then ms[..|ms| - 1] + [2 * v] else ms + [v]
  {
    if |vs| == 0 {
      assert vs + [v] == [v];
    } else if |vs| == 1 {
      assert vs + [v] == [vs[0], v];
      assert [vs[0], v][2..] == [] && [vs[0], v][1..] == [v];
    } else {
      var d := if vs[0] == vs[1] then 2 else 1;
      assert (vs + [v])[d..] == vs[d..] + [v];
      MergedSnoc(vs[d..], v);
      if Pending(vs) == v {
        PendingIsLast(vs[d..]);
      }
    }
  }

  /** The pending tile after appending v: none if v merged with it, else v. */
  lemma {:induction false} PendingSnoc(vs: seq<int>, v: int)
    requires v != 0
    ensures Pending(vs + [v]) == if Pending(vs) == v then 0 else v
  {
    if |vs| == 0 {
      assert vs + [v] == [v];
    } else if |vs| == 1 {
      assert vs + [v] == [vs[0], v];
      assert [vs[0], v][2..] == [] && [vs[0], v][1..] == [v];
    } else {
      var d := if vs[0] == vs[1] then 2 else 1;
      assert (vs + [v])[d..] == vs[d..] + [v];
      PendingSnoc(vs[d..], v);
    }
  }

  /** The score after appending v: it scores 2v exactly when it merges. */
  lemma {:induction false} MergeScoreSnoc(vs: seq<int>, v: int)
    requires v != 0
    ensures MergeScore(vs + [v]) == MergeScore(vs) + if Pending(vs) == v then 2 * v else 0
  {
    if |vs| == 0 {
      assert vs + [v] == [v];
    } else if |vs| == 1 {
      assert vs + [v] == [vs[0], v];
      assert [vs[0], v][2..] == [] && [vs[0], v][1..] == [v];
    } else {
      var d := if vs[0] == vs[1] then 2 else 1;
      assert (vs + [v])[d..] == vs[d..] + [v];
      MergeScoreSnoc(vs[d..], v);
    }
  }

  /** Merges never lengthen a column, and a column that keeps its length
      was left exactly as it was and scored nothing. */
  lemma {:induction false} MergedSameLength(vs: seq<int>)
    requires |Merged(vs)| == |vs|
    ensures Merged(vs) == vs && MergeScore(vs) == 0
  {
    if |vs| >= 2 {
      if vs[0] != vs[1] {
        MergedSameLength(vs[1..]);
      }
    }
  }

  /** Merges preserve the sum of the tiles. */
  lemma {:induction false} MergedSum(vs: seq<int>)
    ensures Sum(Merged(vs)) == Sum(vs)
  {
    if |vs| >= 2 {
      if vs[0] == vs[1] {
        MergedSum(vs[2..]);
        assert vs == [vs[0], vs[1]] + vs[2..];
        SumAppend([vs[0], vs[1]], vs[2..]);
        SumAppend([2 * vs[0]], Merged(vs[2..]));
      } else {
        MergedSum(vs[1..]);
        SumAppend([vs[0]], Merged(vs[1..]));
      }
    }
  }

  lemma {:induction false} NonEmptySum(xs: seq<int>)
    ensures Sum(NonEmpty(xs)) == Sum(xs)
  {
    if xs != [] {
      var init, last := xs[..|xs| - 1], xs[|xs| - 1];
      assert xs == init + [last];
      NonEmptySum(init);
      SumAppend(init, [last]);
      if last != 0 {
        SumAppend(NonEmpty(init), [last]);
      }
    }
  }

  /** The walk of tileColumn computes the reference rules: what it has
      placed is the merged prefix, what may still merge is the pending
      tile, and the squares behind the placed tiles are all empty. */
  lemma {:induction false} WalkMerges(xs: seq<int>)
    ensures var st, vs := Walk(xs), NonEmpty(xs);
      && st.placed == Merged(vs)
      && st.previous == Pending(vs)
      && st.gain == MergeScore(vs)
      && st.emptySpace == |xs| - |Merged(vs)|
  {
    if xs != [] {
      var init, v := xs[..|xs| - 1], xs[|xs| - 1];
      WalkMerges(init);
      var vs := NonEmpty(init);
      if v != 0 {
        MergedSnoc(vs, v);
        PendingSnoc(vs, v);
        MergeScoreSnoc(vs, v);
        if Pending(vs) != 0 {
          PendingIsLast(vs);
        }
      }
    }
  }

  /** The walk reports a change exactly when a merge happened or a tile
      had a gap ahead of it. */
  lemma {:induction false} WalkChanged(xs: seq<int>)
    ensures var vs := NonEmpty(xs);
      Walk(xs).changed <==> |Merged(vs)| < |vs| || !Packed(xs)
  {
    if xs != [] {
      var init, v := xs[..|xs| - 1], xs[|xs| - 1];
      WalkChanged(init);
      WalkMerges(init);
      var vs := NonEmpty(init);
      assert xs == init + [v];
      PackedSnoc(init, v);
      assert NoZero(init) <==> |vs| == |init| by {
        NonEmptyCount(init);
      }
      if v != 0 {
        MergedSnoc(vs, v);
        PendingSnoc(vs, v);
        MergeScoreSnoc(vs, v);
        if Pending(vs) != 0 {
          PendingIsLast(vs);
        }
      }
    }
  }

  /** A column stays packed behind a new square when that square is
      empty or the column had no empty square. */
  lemma PackedSnoc(xs: seq<int>, v: int)
    ensures Packed(xs + [v]) <==> Packed(xs) && (v == 0 || NoZero(xs))
  {
    var ys := xs + [v];
    if Packed(ys) {
      assert Packed(xs) by {
        forall i, j | 0 <= i < j < |xs| && xs[i] == 0 ensures xs[j] == 0 {
          assert ys[i] == xs[i] && ys[j] == xs[j];
        }
      }
      if v != 0 {
        forall i | 0 <= i < |xs| ensures xs[i] != 0 {
          assert ys[i] == xs[i] && ys[|xs|] == v;
        }
      }
    }
  }

  /** NonEmpty drops exactly the zeros. */
  lemma {:induction false} NonEmptyCount(xs: seq<int>)
    ensures NoZero(xs) <==> |NonEmpty(xs)| == |xs|
    ensures NoZero(xs) ==> NonEmpty(xs) == xs
  {
    if xs != [] {
      var init := xs[..|xs| - 1];
      NonEmptyCount(init);
      assert xs == init + [xs[|xs| - 1]];
      assert NoZero(xs) <==> NoZero(init) && xs[|xs| - 1] != 0;
    }
  }

  /** A packed column is its tiles followed by empty squares. */
  lemma {:induction false} PackedSplit(xs: seq<int>)
    requires Packed(xs)
    ensures xs == NonEmpty(xs) + Zeros(|xs| - |NonEmpty(xs)|)
  {
    if xs != [] {
      var init, v := xs[..|xs| - 1], xs[|xs| - 1];
      PackedSplit(init);
      assert xs == init + [v];
      if v != 0 {
        assert NoZero(init);
        NonEmptyCount(init);
      }
    }
  }

  /** After a tilt each column holds its merged tiles, in their original
      order, packed against the tilt side without gaps. */
  lemma SlidPacked(xs: seq<int>)
    ensures Packed(Slid(xs))
    ensures NonEmpty(Slid(xs)) == Merged(NonEmpty(xs))
  {
    var ms := Merged(NonEmpty(xs));
    MergedNoZero(NonEmpty(xs));
    NonEmptyAppendZeros(ms, |xs| - |ms|);
    PackedAppendZeros(ms, |xs| - |ms|);
  }

  /** Tiles followed by empty squares form a packed column. */
  lemma PackedAppendZeros(ms: seq<int>, n: nat)
    requires NoZero(ms)
    ensures Packed(ms + Zeros(n))
  {
    var ys := ms + Zeros(n);
    forall i, j | 0 <= i < j < |ys| && ys[i] == 0
      ensures ys[j] == 0
    {
      assert i >= |ms|;
      assert ys[j] == Zeros(n)[j - |ms|];
    }
  }

  lemma {:induction false} NonEmptyAppendZeros(ms: seq<int>, n: nat)
    requires NoZero(ms)
    ensures NonEmpty(ms + Zeros(n)) == ms
  {
    if n == 0 {
      assert ms + Zeros(0) == ms;
      NonEmptyCount(ms);
    } else {
      assert (ms + Zeros(n))[..|ms| + n - 1] == ms + Zeros(n - 1);
      NonEmptyAppendZeros(ms, n - 1);
    }
  }

  /** A tilt preserves the sum of the column's tiles. */
  lemma SlidSum(xs: seq<int>)
    ensures Sum(Slid(xs)) == Sum(xs)
  {
    var ms := Merged(NonEmpty(xs));
    SumAppend(ms, Zeros(|xs| - |ms|));
    SumZeros(|xs| - |ms|);
    MergedSum(NonEmpty(xs));
    NonEmptySum(xs);
  }

  /** A tilt changes a column exactly when a merge happens or a tile has
      a gap ahead of it; a column it leaves alone scores nothing. */
  lemma SlidChanges(xs: seq<int>)
    ensures var vs := NonEmpty(xs);
      Slid(xs) != xs <==> |Merged(vs)| < |vs| || !Packed(xs)
    ensures Slid(xs) == xs ==> SlideGain(xs) == 0
  {
    var vs := NonEmpty(xs);
    SlidPacked(xs);
    if |Merged(vs)| == |vs| {
      MergedSameLength(vs);
      if Packed(xs) {
        PackedSplit(xs);
      }
    } else {
      assert |Merged(vs)| < |vs|;
      assert NonEmpty(Slid(xs)) != NonEmpty(xs);
    }
  }

  /** The walk's result, stated by the reference rules. */
  lemma WalkSlides(xs: seq<int>)
    ensures var st := Walk(xs);
      && st.emptySpace >= 0
      && st.placed + Zeros(st.emptySpace) == Slid(xs)
      && st.gain == SlideGain(xs)
      && (st.changed <==> Slid(xs) != xs)
  {
    WalkMerges(xs);
    WalkChanged(xs);
    SlidChanges(xs);
  }

  /** The walk over the whole column leaves it slid, has scored the
      merges and knows whether it changed the column. */
  lemma LayoutDone(xs: seq<int>)
    ensures var st := WalkTo(xs, |xs|);
      && Layout(xs, |xs|) == Slid(xs)
      && st.gain == SlideGain(xs)
      && (st.changed <==> Slid(xs) != xs)
  {
    WalkToPrefix(xs, |xs|);
    assert xs[..|xs|] == xs;
    LayoutForm(xs, |xs|);
    assert xs[|xs|..] == [];
    WalkSlides(xs);
  }

  /** The score a tilt earns on the first m columns. */
  function TiltGain(cols: seq<seq<int>>, m: int): int
    requires 0 <= m <= |cols|
    decreases m
  {
    if m == 0 then 0 else TiltGain(cols, m - 1) + SlideGain(cols[m - 1])
  }

  /** A tilt that changes none of those columns scores nothing. */
  lemma {:induction false} TiltGainIdle(cols: seq<seq<int>>, m: int)
    requires 0 <= m <= |cols|
    requires forall i :: 0 <= i < m ==> Slid(cols[i]) == cols[i]
    ensures TiltGain(cols, m) == 0
  {
    if m > 0 {
      TiltGainIdle(cols, m - 1);
      SlidChanges(cols[m - 1]);
    }
  }

  /** Whether a tilt changes any of the first m columns. */
  predicate TiltChanges(cols: seq<seq<int>>, m: int)
    requires 0 <= m <= |cols|
    decreases m
  {
    m > 0 && (TiltChanges(cols, m - 1) || Slid(cols[m - 1]) != cols[m - 1])
  }

  /** ... exactly when one of them is not already in its slid form. */
  lemma {:induction false} TiltChangesSome(cols: seq<seq<int>>, m: int)
    requires 0 <= m <= |cols|
    ensures TiltChanges(cols, m) <==> exists i :: 0 <= i < m && Slid(cols[i]) != cols[i]
  {
    if m > 0 {
      TiltChangesSome(cols, m - 1);
      if Slid(cols[m - 1]) != cols[m - 1] {
        assert exists i :: 0 <= i < m && Slid(cols[i]) != cols[i];
      }
    }
  }

  // ---------------------------------------------------------------
  // Game-over predicates on a square grid g[col][row].

  /** A square grid of values, g[c][r] for column c and row r. */
  predicate IsGrid(g: seq<seq<int>>) {
    forall c :: 0 <= c < |g| ==> |g[c]| == |g|
  }

  predicate HasEmpty(g: seq<seq<int>>)
    requires IsGrid(g)
  {
    exists c, r :: 0 <= c < |g| && 0 <= r < |g| && g[c][r] == 0
  }

  predicate HasMaxTile(g: seq<seq<int>>)
    requires IsGrid(g)
  {
    exists c, r :: 0 <= c < |g| && 0 <= r < |g| && g[c][r] == MAX_PIECE
  }

  /** Some square equals its right-hand or upper neighbour. */
  predicate EqualNeighbours(g: seq<seq<int>>)
    requires IsGrid(g)
  {
    exists c, r :: 0 <= c < |g| && 0 <= r < |g| && MatchesRightOrAbove(g, c, r)
  }

  /** Square (c, r) equals its right-hand or its upper neighbour. */
  predicate MatchesRightOrAbove(g: seq<seq<int>>, c: int, r: int)
    requires IsGrid(g) && 0 <= c < |g| && 0 <= r < |g|
  {
    (c + 1 < |g| && g[c][r] == g[c + 1][r]) || (r + 1 < |g| && g[c][r] == g[c][r + 1])
  }

  /** A move exists: an empty square or two equal adjacent tiles. */
  predicate MoveExists(g: seq<seq<int>>)
    requires IsGrid(g)
  {
    HasEmpty(g) || EqualNeighbours(g)
  }

  /** The pairs atLeastOneMoveExists actually compares: (0, 0) with its
      two neighbours, then each square with both coordinates at least 1
      against its left and lower neighbours. */
  predicate MoveExistsAsWritten(g: seq<seq<int>>)
    requires IsGrid(g) && |g| >= 1
  {
    || HasEmpty(g)
    || (|g| != 1
        && (|| g[0][0] == g[1][0]
            || g[0][0] == g[0][1]
            || LeftOrBelowMatch(g)))
  }

  /** Some square off the bottom row and the left column equals its left
      or its lower neighbour. */
  predicate LeftOrBelowMatch(g: seq<seq<int>>)
    requires IsGrid(g)
  {
    exists i, j :: 1 <= i < |g| && 1 <= j < |g| && MatchesLeftOrBelow(g, i, j)
  }

  /** Square (i, j) equals its left or its lower neighbour. */
  predicate MatchesLeftOrBelow(g: seq<seq<int>>, i: int, j: int)
    requires IsGrid(g) && 1 <= i < |g| && 1 <= j < |g|
  {
    g[i][j] == g[i - 1][j] || g[i][j] == g[i][j - 1]
  }

  /** Every pair the written check finds is a real move. */
  lemma AsWrittenSound(g: seq<seq<int>>)
    requires IsGrid(g) && |g| >= 1
    ensures MoveExistsAsWritten(g) ==> MoveExists(g)
  {
    if MoveExistsAsWritten(g) && !HasEmpty(g) {
      if g[0][0] == g[1][0] || g[0][0] == g[0][1] {
        assert MatchesRightOrAbove(g, 0, 0);
      } else {
        var i, j :| 1 <= i < |g| && 1 <= j < |g| && MatchesLeftOrBelow(g, i, j);
        if g[i][j] == g[i - 1][j] {
          assert MatchesRightOrAbove(g, i - 1, j);
        } else {
          assert MatchesRightOrAbove(g, i, j - 1);
        }
      }
    }
  }

  /** A full 3x3 board whose only equal neighbours are (1, 0) and (2, 0):
      a tilt east or west merges them, yet the written check answers no. */
  const Missed: seq<seq<int>> := [[2, 8, 64], [4, 16, 128], [4, 32, 256]]

  lemma AsWrittenMissesRowZero()
    ensures IsGrid(Missed) && MoveExists(Missed) && !MoveExistsAsWritten(Missed)
  {
    var g := Missed;
    assert MatchesRightOrAbove(g, 1, 0);
    assert !HasEmpty(g);
    assert !MatchesLeftOrBelow(g, 1, 1) && !MatchesLeftOrBelow(g, 1, 2);
    assert !MatchesLeftOrBelow(g, 2, 1) && !MatchesLeftOrBelow(g, 2, 2);
  }

  /** checkGameOver(Board) as written: the game ends when a 2048 tile is on
      the board or atLeastOneMoveExists finds no move. */
  predicate GameIsOverAsWritten(g: seq<seq<int>>)
    requires IsGrid(g) && |g| >= 1
  {
    HasMaxTile(g) || !MoveExistsAsWritten(g)
  }

  /** The game over the documented move check gives: a 2048 tile is on the
      board or no move is left. */
  predicate GameIsOver(g: seq<seq<int>>)
    requires IsGrid(g)
  {
    HasMaxTile(g) || !MoveExists(g)
  }

  /** The written check never keeps a game going that has really ended,
      but it may end one that has not. */
  lemma AsWrittenEndsNoLater(g: seq<seq<int>>)
    requires IsGrid(g) && |g| >= 1
    ensures GameIsOver(g) ==> GameIsOverAsWritten(g)
  {
    AsWrittenSound(g);
  }

  /** On the board Missed the written check ends the game while a tilt
      east or west would still merge two tiles. */
  lemma MissedEndsGame()
    ensures IsGrid(Missed) && |Missed| >= 1
    ensures GameIsOverAsWritten(Missed) && !GameIsOver(Missed)
  {
    AsWrittenMissesRowZero();
    var g := Missed;
    forall c, r | 0 <= c < |g| && 0 <= r < |g|
      ensures g[c][r] != MAX_PIECE
    {
      assert g[c][r] <= 256;
    }
  }
}

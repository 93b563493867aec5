/** The focal neighbourhood operators: edge padding, the shifted views of a padded
    raster (`roll`), the 8-neighbour comparison (`focal_compare`) and the 3x3 window
    statistics (`focal_stat`). */
module Focal {
  import opened Grids

  /** np.pad(g, pad_width=p, mode='edge'): every added pixel repeats the nearest pixel of `g`. */
  function EdgePad<T>(g: Grid<T>, p: nat): (r: Grid<T>)
    requires NonEmpty(g)
    ensures NonEmpty(r) && |r| == |g| + 2 * p && Width(r) == Width(g) + 2 * p
  {
    var h, w := |g|, Width(g);
    var r := seq(h + 2 * p, i requires 0 <= i < h + 2 * p =>
      seq(w + 2 * p, j requires 0 <= j < w + 2 * p => g[Clamp(i - p, h)][Clamp(j - p, w)]));
    assert forall i :: 0 <= i < |r| ==> |r[i]| == w + 2 * p;
    r
  }

  /** A padded pixel repeats the pixel of `g` nearest to it; the interior is `g` itself. */
  lemma EdgePadAt<T>(g: Grid<T>, p: nat, i: int, j: int)
    requires NonEmpty(g) && 0 <= i < |g| + 2 * p && 0 <= j < Width(g) + 2 * p
    ensures EdgePad(g, p)[i][j] == g[Clamp(i - p, |g|)][Clamp(j - p, Width(g))]
    ensures InBounds(g, i - p, j - p) ==> EdgePad(g, p)[i][j] == g[i - p][j - p]
  {
  }

  /** np.roll(g, (s0, s1), axis=(0, 1)). */
  function CyclicShift<T>(g: Grid<T>, s0: int, s1: int): (r: Grid<T>)
    requires NonEmpty(g)
    ensures NonEmpty(r) && SameShape(r, g)
  {
    var h, w := |g|, Width(g);
    var r := seq(h, i requires 0 <= i < h => seq(w, j requires 0 <= j < w => g[(i - s0) % h][(j - s1) % w]));
    assert forall i :: 0 <= i < h ==> |r[i]| == w;
    r
  }

  lemma CyclicShiftAt<T>(g: Grid<T>, s0: int, s1: int, i: int, j: int)
    requires NonEmpty(g) && InBounds(g, i, j)
    ensures CyclicShift(g, s0, s1)[i][j] == g[(i - s0) % |g|][(j - s1) % Width(g)]
  {
  }

  /** np.roll moves the pixel at (i, j) to ((i + s0) mod height, (j + s1) mod width),
      wrapping around at the borders. */
  lemma CyclicShiftMoves<T>(g: Grid<T>, s0: int, s1: int, i: int, j: int)
    requires NonEmpty(g) && InBounds(g, i, j)
    ensures CyclicShift(g, s0, s1)[(i + s0) % |g|][(j + s1) % Width(g)] == g[i][j]
  {
    var h, w := |g|, Width(g);
    ShiftBack(i, s0, h);
    ShiftBack(j, s1, w);
    CyclicShiftAt(g, s0, s1, (i + s0) % h, (j + s1) % w);
  }

  lemma ShiftBack(i: int, s: int, n: nat)
    requires 0 <= i < n
    ensures ((i + s) % n - s) % n == i
  {
    var q := (i + s) / n;
    assert i + s == n * q + (i + s) % n;
    ModUnique((i + s) % n - s, n, -q, i);
  }

  /** The Euclidean remainder is fixed by any quotient and in-range remainder. */
  lemma ModUnique(x: int, n: nat, q: int, r: int)
    requires 0 <= r < n && x == n * q + r
    ensures x % n == r
  {
    var d, m := x / n, x % n;
    assert x == n * d + m;
    assert n * (q - d) == m - r;
    if q - d >= 1 {
      MulAtLeast(n, q - d);
    } else if d - q >= 1 {
      assert n * (d - q) == r - m;
      MulAtLeast(n, d - q);
    }
  }

  lemma {:induction false} MulAtLeast(n: nat, k: int)
    requires k >= 1
    ensures n * k >= n
  {
    if k > 1 {
      MulAtLeast(n, k - 1);
      assert n * k == n * (k - 1) + n;
    }
  }

  /** The `roll` helper of create.py: shift a padded raster cyclically, then trim its one-pixel border. */
  function Roll<T>(pad: Grid<T>, s0: int, s1: int): (r: Grid<T>)
    requires NonEmpty(pad) && |pad| > 2 && Width(pad) > 2
    ensures NonEmpty(r) && |r| == |pad| - 2 && Width(r) == Width(pad) - 2
  {
    var shifted := CyclicShift(pad, s0, s1);
    var h, w := |pad| - 2, Width(pad) - 2;
    var r := seq(h, i requires 0 <= i < h => seq(w, j requires 0 <= j < w => shifted[i + 1][j + 1]));
    assert forall i :: 0 <= i < h ==> |r[i]| == w;
    r
  }

  lemma RollAt<T>(pad: Grid<T>, s0: int, s1: int, i: int, j: int)
    requires NonEmpty(pad) && |pad| > 2 && Width(pad) > 2 && 0 <= i < |pad| - 2 && 0 <= j < Width(pad) - 2
    ensures Roll(pad, s0, s1)[i][j] == CyclicShift(pad, s0, s1)[i + 1][j + 1]
  {
  }

  /** The pixel at offset (di, dj) from (i, j), read as edge padding reads past the border. */
  function Neighbour<T>(g: Grid<T>, i: int, j: int, di: int, dj: int): T
    requires NonEmpty(g)
  {
    g[Clamp(i + di, |g|)][Clamp(j + dj, Width(g))]
  }

  /** The shifted views of a raster edge-padded by `p >= 1` pixels, read at the position of
      pixel (i, j), are its edge-padded neighbours: the wrap-around of np.roll stays in the padding. */
  lemma ShiftOfEdgePad<T>(g: Grid<T>, p: nat, s0: int, s1: int, i: int, j: int)
    requires NonEmpty(g) && p >= 1 && -1 <= s0 <= 1 && -1 <= s1 <= 1 && InBounds(g, i, j)
    ensures CyclicShift(EdgePad(g, p), s0, s1)[i + p][j + p] == Neighbour(g, i, j, -s0, -s1)
  {
    var pad := EdgePad(g, p);
    var h, w := |pad|, Width(pad);
    var a, b := i + p - s0, j + p - s1;
    CyclicShiftAt(pad, s0, s1, i + p, j + p);
    assert a % h == a by { ModUnique(a, h, 0, a); }
    assert b % w == b by { ModUnique(b, w, 0, b); }
    EdgePadAt(g, p, a, b);
  }

  /** Rolling the 1-pixel edge-padded raster by at most one step per axis and trimming
      the border gives, at every pixel, the edge-padded neighbour at offset (-s0, -s1):
      the cyclic wrap-around never reaches the part that is kept. */
  lemma RollOfEdgePad<T>(g: Grid<T>, s0: int, s1: int, i: int, j: int)
    requires NonEmpty(g) && -1 <= s0 <= 1 && -1 <= s1 <= 1 && InBounds(g, i, j)
    ensures Roll(EdgePad(g, 1), s0, s1)[i][j] == Neighbour(g, i, j, -s0, -s1)
  {
    RollAt(EdgePad(g, 1), s0, s1, i, j);
    ShiftOfEdgePad(g, 1, s0, s1, i, j);
  }

  /** The shifts of the stack's layers: layer 0 is the raster itself, layers 1..8 are the
      eight rolls of create.py (1, 0), (-1, 0), (0, 1), (0, -1), (1, 1), (1, -1), (-1, 1), (-1, -1). */
  const RowShift: seq<int> := [0, 1, -1, 0, 0, 1, 1, -1, -1]
  const ColShift: seq<int> := [0, 0, 0, 1, -1, 1, -1, 1, -1]

  /** The nine stacked values at (i, j): the centre, then the eight shifted views of the
      1-pixel edge-padded raster. */
  function Stack<T>(g: Grid<T>, i: int, j: int): (s: seq<T>)
    requires NonEmpty(g) && InBounds(g, i, j)
    ensures |s| == 9
  {
    var pad := EdgePad(g, 1);
    seq(9, k requires 0 <= k < 9 => if k == 0 then g[i][j] else Roll(pad, RowShift[k], ColShift[k])[i][j])
  }

  /** Layer k of the stack holds the edge-padded neighbour at the opposite of its shift. */
  lemma StackAt<T>(g: Grid<T>, i: int, j: int)
    requires NonEmpty(g) && InBounds(g, i, j)
    ensures forall k :: 0 <= k < 9 ==> Stack(g, i, j)[k] == Neighbour(g, i, j, -RowShift[k], -ColShift[k])
  {
    forall k | 0 <= k < 9
      ensures Stack(g, i, j)[k] == Neighbour(g, i, j, -RowShift[k], -ColShift[k])
    {
      if k > 0 {
        RollOfEdgePad(g, RowShift[k], ColShift[k], i, j);
      }
    }
  }

  /** The 3x3 window around (i, j), edge-padded, in the order of the stack's layers. */
  function Window<T>(g: Grid<T>, i: int, j: int): seq<T>
    requires NonEmpty(g)
  {
    [Neighbour(g, i, j, 0, 0),
     Neighbour(g, i, j, -1, 0), Neighbour(g, i, j, 1, 0), Neighbour(g, i, j, 0, -1), Neighbour(g, i, j, 0, 1),
     Neighbour(g, i, j, -1, -1), Neighbour(g, i, j, -1, 1), Neighbour(g, i, j, 1, -1), Neighbour(g, i, j, 1, 1)]
  }

  /** The stack create.py builds from rolls of the padded raster is the 3x3 window. */
  lemma StackIsWindow<T>(g: Grid<T>, i: int, j: int)
    requires NonEmpty(g) && InBounds(g, i, j)
    ensures Stack(g, i, j) == Window(g, i, j)
  {
    StackAt(g, i, j);
  }

  /** The comparison over one stack: the centre indicator plus the eight equality
      indicators, times the centre indicator. */
  function CompareStack(s: seq<int>): int
    requires |s| == 9
  {
    var v := s[0];
    (Ind(v > 0) + Ind(s[1] == v) + Ind(s[2] == v) + Ind(s[3] == v) + Ind(s[4] == v)
                + Ind(s[5] == v) + Ind(s[6] == v) + Ind(s[7] == v) + Ind(s[8] == v)) * Ind(v > 0)
  }

  /** focal_compare: the comparison over the stack of every pixel. */
  function FocalCompare(g: Grid<int>): (r: Grid<int>)
    requires NonEmpty(g)
    ensures SameShape(r, g)
  {
    var h, w := |g|, Width(g);
    var r := seq(h, i requires 0 <= i < h => seq(w, j requires 0 <= j < w => CompareStack(Stack(g, i, j))));
    assert forall i :: 0 <= i < h ==> |r[i]| == w;
    r
  }

  lemma FocalCompareAt(g: Grid<int>, i: int, j: int)
    requires NonEmpty(g) && InBounds(g, i, j)
    ensures FocalCompare(g)[i][j] == CompareStack(Stack(g, i, j))
  {
  }

  /** How many of the eight neighbours around (i, j), edge-padded, equal the centre. */
  function NeighbourMatches(g: Grid<int>, i: int, j: int): int
    requires NonEmpty(g) && InBounds(g, i, j)
  {
    var v := g[i][j];
    Ind(Neighbour(g, i, j, -1, -1) == v) + Ind(Neighbour(g, i, j, -1, 0) == v) + Ind(Neighbour(g, i, j, -1, 1) == v)
    + Ind(Neighbour(g, i, j, 0, -1) == v) + Ind(Neighbour(g, i, j, 0, 1) == v)
    + Ind(Neighbour(g, i, j, 1, -1) == v) + Ind(Neighbour(g, i, j, 1, 0) == v) + Ind(Neighbour(g, i, j, 1, 1) == v)
  }

  /** Every pixel of the 3x3 window around (i, j), edge-padded, equals the centre. */
  predicate Homogeneous(g: Grid<int>, i: int, j: int)
    requires NonEmpty(g)
  {
    forall di, dj :: -1 <= di <= 1 && -1 <= dj <= 1 ==> Neighbour(g, i, j, di, dj) == Neighbour(g, i, j, 0, 0)
  }

  /** Compare at one pixel is 0 wherever the pixel is <= 0, and otherwise one plus the
      number of matching neighbours. */
  lemma CompareCount(g: Grid<int>, i: int, j: int)
    requires NonEmpty(g) && InBounds(g, i, j)
    ensures g[i][j] <= 0 ==> FocalCompare(g)[i][j] == 0
    ensures g[i][j] > 0 ==> FocalCompare(g)[i][j] == 1 + NeighbourMatches(g, i, j)
  {
    FocalCompareAt(g, i, j);
    StackIsWindow(g, i, j);
  }

  /** Each of the nine offsets of the 3x3 window is one layer of the window. */
  lemma InWindow<T>(g: Grid<T>, i: int, j: int, di: int, dj: int)
    requires NonEmpty(g) && -1 <= di <= 1 && -1 <= dj <= 1
    ensures Neighbour(g, i, j, di, dj) in Window(g, i, j)
  {
    var w := Window(g, i, j);
    if di == 0 && dj == 0 { assert w[0] == Neighbour(g, i, j, di, dj); }
    else if di == -1 && dj == 0 { assert w[1] == Neighbour(g, i, j, di, dj); }
    else if di == 1 && dj == 0 { assert w[2] == Neighbour(g, i, j, di, dj); }
    else if di == 0 && dj == -1 { assert w[3] == Neighbour(g, i, j, di, dj); }
    else if di == 0 && dj == 1 { assert w[4] == Neighbour(g, i, j, di, dj); }
    else if di == -1 && dj == -1 { assert w[5] == Neighbour(g, i, j, di, dj); }
    else if di == -1 && dj == 1 { assert w[6] == Neighbour(g, i, j, di, dj); }
    else if di == 1 && dj == -1 { assert w[7] == Neighbour(g, i, j, di, dj); }
    else { assert w[8] == Neighbour(g, i, j, di, dj); }
  }

  /** All eight neighbours match the centre exactly when the window is homogeneous. */
  lemma MatchesAll(g: Grid<int>, i: int, j: int)
    requires NonEmpty(g) && InBounds(g, i, j)
    ensures 0 <= NeighbourMatches(g, i, j) <= 8
    ensures NeighbourMatches(g, i, j) == 8 <==> Homogeneous(g, i, j)
  {
    assert Neighbour(g, i, j, 0, 0) == g[i][j];
    if NeighbourMatches(g, i, j) == 8 {
      forall di, dj | -1 <= di <= 1 && -1 <= dj <= 1
        ensures Neighbour(g, i, j, di, dj) == Neighbour(g, i, j, 0, 0)
      {
        InWindow(g, i, j, di, dj);
      }
    }
  }

  /** focal_compare is 0 wherever the pixel is <= 0, and otherwise one plus the number of
      matching neighbours; so it lies in 0..9, and it is 9 exactly when the pixel is > 0
      and all eight edge-padded neighbours equal it. */
  lemma FocalCompareSpec(g: Grid<int>, i: int, j: int)
    requires NonEmpty(g) && InBounds(g, i, j)
    ensures 0 <= FocalCompare(g)[i][j] <= 9
    ensures g[i][j] <= 0 ==> FocalCompare(g)[i][j] == 0
    ensures g[i][j] > 0 ==> FocalCompare(g)[i][j] == 1 + NeighbourMatches(g, i, j)
    ensures FocalCompare(g)[i][j] == 9 <==> g[i][j] > 0 && Homogeneous(g, i, j)
  {
    CompareCount(g, i, j);
    MatchesAll(g, i, j);
  }

  /** The statistics focal_stat can take, as an enumeration instead of a lookup by name. */
  datatype Stat = Sum | Min | Max

  function Combine(stat: Stat, a: int, b: int): int {
    match stat
    case Sum => a + b
    case Min => if a <= b then a else b
    case Max => if a >= b then a else b
  }

  /** The statistic over a non-empty stack of values. */
  function Reduce(stat: Stat, s: seq<int>): (r: int)
    requires |s| > 0
    ensures stat == Min ==> r in s && forall k :: 0 <= k < |s| ==> r <= s[k]
    ensures stat == Max ==> r in s && forall k :: 0 <= k < |s| ==> s[k] <= r
  {
    if |s| == 1 then s[0] else Combine(stat, s[0], Reduce(stat, s[1..]))
  }

  /** focal_stat: the statistic over the stack of every pixel. */
  function FocalStat(g: Grid<int>, stat: Stat): (r: Grid<int>)
    requires NonEmpty(g)
    ensures SameShape(r, g)
  {
    var h, w := |g|, Width(g);
    var r := seq(h, i requires 0 <= i < h => seq(w, j requires 0 <= j < w => Reduce(stat, Stack(g, i, j))));
    assert forall i :: 0 <= i < h ==> |r[i]| == w;
    r
  }

  lemma FocalStatAt(g: Grid<int>, stat: Stat, i: int, j: int)
    requires NonEmpty(g) && InBounds(g, i, j)
    ensures FocalStat(g, stat)[i][j] == Reduce(stat, Stack(g, i, j))
  {
  }

  /** The sum of the 3x3 window around (i, j), edge-padded, centre included. */
  function WindowSum(g: Grid<int>, i: int, j: int): int
    requires NonEmpty(g)
  {
    Neighbour(g, i, j, -1, -1) + Neighbour(g, i, j, -1, 0) + Neighbour(g, i, j, -1, 1)
    + Neighbour(g, i, j, 0, -1) + Neighbour(g, i, j, 0, 0) + Neighbour(g, i, j, 0, 1)
    + Neighbour(g, i, j, 1, -1) + Neighbour(g, i, j, 1, 0) + Neighbour(g, i, j, 1, 1)
  }

  lemma ReduceSumStep(s: seq<int>, k: nat)
    requires k + 1 < |s|
    ensures Reduce(Sum, s[k..]) == s[k] + Reduce(Sum, s[k + 1..])
  {
    assert s[k..][1..] == s[k + 1..];
  }

  lemma {:induction false} ReduceSumNine(s: seq<int>)
    requires |s| == 9
    ensures Reduce(Sum, s) == s[0] + s[1] + s[2] + s[3] + s[4] + s[5] + s[6] + s[7] + s[8]
  {
    assert s[8..] == [s[8]];
    ReduceSumStep(s, 7);
    ReduceSumStep(s, 6);
    ReduceSumStep(s, 5);
    ReduceSumStep(s, 4);
    ReduceSumStep(s, 3);
    ReduceSumStep(s, 2);
    ReduceSumStep(s, 1);
    ReduceSumStep(s, 0);
    assert s[0..] == s;
  }

  /** focal_stat with the sum is the sum of the edge-padded 3x3 window. */
  lemma FocalSumIsWindowSum(g: Grid<int>, i: int, j: int)
    requires NonEmpty(g) && InBounds(g, i, j)
    ensures FocalStat(g, Sum)[i][j] == WindowSum(g, i, j)
  {
    FocalStatAt(g, Sum, i, j);
    StackIsWindow(g, i, j);
    ReduceSumNine(Stack(g, i, j));
  }

  /** focal_stat with the minimum (maximum) is at most (at least) every value of the window. */
  lemma FocalMinMaxBound(g: Grid<int>, i: int, j: int)
    requires NonEmpty(g) && InBounds(g, i, j)
    ensures forall di, dj :: -1 <= di <= 1 && -1 <= dj <= 1 ==>
      FocalStat(g, Min)[i][j] <= Neighbour(g, i, j, di, dj) <= FocalStat(g, Max)[i][j]
  {
    FocalStatAt(g, Min, i, j);
    FocalStatAt(g, Max, i, j);
    StackIsWindow(g, i, j);
    var s := Window(g, i, j);
    var lo, hi := Reduce(Min, s), Reduce(Max, s);
    forall di, dj | -1 <= di <= 1 && -1 <= dj <= 1
      ensures lo <= Neighbour(g, i, j, di, dj) <= hi
    {
      InWindow(g, i, j, di, dj);
    }
  }
}

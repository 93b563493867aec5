/** Per-segment normalisation of the distances to field boundaries: a sliver segment gets
    0.1, any other segment is divided by its largest distance, and the result is clipped to
    [0, 1]. The distance transform and the segment map are inputs. */
module Distances {
  import opened Grids
  import opened Segments

  /** The largest value of a list; 0.0 for an empty one. */
  function MaxOf(vals: seq<real>): (m: real)
    ensures |vals| > 0 ==> exists k :: 0 <= k < |vals| && vals[k] == m
    ensures forall k :: 0 <= k < |vals| ==> vals[k] <= m
    decreases |vals|
  {
    if |vals| == 0 then 0.0
    else if |vals| == 1 then vals[0]
    else
      var n := |vals| - 1;
      var m := MaxOf(vals[..n]);
      assert forall k :: 0 <= k < n ==> vals[..n][k] == vals[k];
      if vals[n] > m then vals[n] else m
  }

  /** The largest distance over the pixels of segment `s` (regionprops' max_intensity). */
  function SegmentMax(dist: Grid<real>, segs: Grid<int>, s: int): real
    requires SameShape(dist, segs)
  {
    MaxOf(SegmentValues(dist, segs, s))
  }

  /** `d / max_intensity`, where a segment whose distances are all zero divides 0 by 0 and
      `nan_to_num(nan=1.0)` turns the result into 1. */
  function Scale(d: real, m: real): real {
    if m == 0.0 then 1.0 else d / m
  }

  /** `clip(0, 1)`. */
  function Clip(x: real): (r: real)
    ensures 0.0 <= r <= 1.0
    ensures 0.0 <= x <= 1.0 ==> r == x
  {
    if x < 0.0 then 0.0 else if x > 1.0 then 1.0 else x
  }

  /** The value of a pixel of segment `s` before clipping. */
  ghost function SegmentRule(dist: Grid<real>, segs: Grid<int>, d: real, s: int): real
    requires SameShape(dist, segs)
  {
    if s > 0 then (if Thin(segs, s) then 0.1 else Scale(d, SegmentMax(dist, segs, s))) else d
  }

  /** normalize_boundary_distances on values. */
  ghost function Normalized(dist: Grid<real>, segs: Grid<int>): (r: Grid<real>)
    requires SameShape(dist, segs)
    ensures SameShape(r, dist)
  {
    Zip(dist, segs, (d: real, s: int) => Clip(SegmentRule(dist, segs, d, s)))
  }

  /** Every normalised distance lies in [0, 1]. */
  lemma NormalizedInUnit(dist: Grid<real>, segs: Grid<int>)
    requires SameShape(dist, segs)
    ensures forall i, j :: InBounds(dist, i, j) ==> 0.0 <= Normalized(dist, segs)[i][j] <= 1.0
  {
    forall i, j | InBounds(dist, i, j)
      ensures 0.0 <= Normalized(dist, segs)[i][j] <= 1.0
    {
      assert Normalized(dist, segs)[i][j] == Clip(SegmentRule(dist, segs, dist[i][j], segs[i][j]));
    }
  }

  /** With non-negative distances, a pixel of a thick segment is its distance over the
      segment's largest distance, already within [0, 1] before clipping; a sliver is 0.1;
      an all-zero segment is 1; the background of the segment map is only clipped. */
  lemma NormalizedRule(dist: Grid<real>, segs: Grid<int>, i: int, j: int)
    requires SameShape(dist, segs) && InBounds(dist, i, j)
    requires forall a, b :: InBounds(dist, a, b) ==> dist[a][b] >= 0.0
    ensures var s, m := segs[i][j], SegmentMax(dist, segs, segs[i][j]);
      && (s > 0 && Thin(segs, s) ==> Normalized(dist, segs)[i][j] == 0.1)
      && (s > 0 && !Thin(segs, s) && m == 0.0 ==> Normalized(dist, segs)[i][j] == 1.0)
      && (s > 0 && !Thin(segs, s) && m != 0.0 ==> Normalized(dist, segs)[i][j] == dist[i][j] / m && 0.0 < m)
      && (s <= 0 ==> Normalized(dist, segs)[i][j] == Clip(dist[i][j]))
  {
    var s := segs[i][j];
    var vals := SegmentValues(dist, segs, s);
    var m := MaxOf(vals);
    var k := SegmentValueIndex(dist, segs, s, i, j);
    assert dist[i][j] <= m;
    assert Normalized(dist, segs)[i][j] == Clip(SegmentRule(dist, segs, dist[i][j], s));
    if m != 0.0 {
      DivideByMax(dist[i][j], m);
    }
  }

  lemma DivideByMax(d: real, m: real)
    requires 0.0 <= d <= m && m != 0.0
    ensures 0.0 <= d / m <= 1.0 && 0.0 < m
  {
  }

  lemma DivideByItself(m: real)
    requires m != 0.0
    ensures m / m == 1.0
  {
  }

  lemma DivideMonotone(x: real, y: real, m: real)
    requires x <= y && 0.0 < m
    ensures x / m <= y / m
  {
  }

  /** In every thick segment some pixel, one with the segment's largest distance, is
      normalised to 1. */
  lemma MaxPixelIsOne(dist: Grid<real>, segs: Grid<int>, s: int) returns (i: int, j: int)
    requires SameShape(dist, segs) && s > 0 && Occurs(segs, s) && !Thin(segs, s)
    requires forall a, b :: InBounds(dist, a, b) ==> dist[a][b] >= 0.0
    ensures InBounds(dist, i, j) && segs[i][j] == s && Normalized(dist, segs)[i][j] == 1.0
  {
    var vals := SegmentValues(dist, segs, s);
    SegmentValuesSpec(dist, segs, s, 0.0);
    var m := MaxOf(vals);
    var k :| 0 <= k < |vals| && vals[k] == m;
    i, j := SegmentValueSource(dist, segs, s, k);
    assert dist[i][j] == m;
    NormalizedRule(dist, segs, i, j);
    if m != 0.0 {
      DivideByItself(m);
    }
  }

  /** Within one thick segment the normalisation keeps the order of the distances. */
  lemma NormalizedMonotone(dist: Grid<real>, segs: Grid<int>, i: int, j: int, a: int, b: int)
    requires SameShape(dist, segs) && InBounds(dist, i, j) && InBounds(dist, a, b)
    requires forall x, y :: InBounds(dist, x, y) ==> dist[x][y] >= 0.0
    requires segs[i][j] == segs[a][b] && dist[i][j] <= dist[a][b]
    ensures Normalized(dist, segs)[i][j] <= Normalized(dist, segs)[a][b]
  {
    NormalizedRule(dist, segs, i, j);
    NormalizedRule(dist, segs, a, b);
    var m := SegmentMax(dist, segs, segs[i][j]);
    if segs[i][j] > 0 && !Thin(segs, segs[i][j]) && m != 0.0 {
      DivideMonotone(dist[i][j], dist[a][b], m);
    } else if segs[i][j] <= 0 {
      assert Clip(dist[i][j]) <= Clip(dist[a][b]);
    }
  }

  /** The pixels of segment `s` scaled by its largest distance `m`, in place. */
  method ScaleSegment(a: array2<real>, segs: Grid<int>, s: int, m: real)
    requires Rect(segs) && a.Length0 == |segs| && a.Length1 == Width(segs)
    modifies a
    ensures forall i, j :: 0 <= i < a.Length0 && 0 <= j < a.Length1 ==>
      a[i, j] == if segs[i][j] == s then Scale(old(a[i, j]), m) else old(a[i, j])
  {
    for i := 0 to a.Length0
      invariant forall r, c :: 0 <= r < a.Length0 && 0 <= c < a.Length1 ==>
        a[r, c] == if r < i && segs[r][c] == s then Scale(old(a[r, c]), m) else old(a[r, c])
    {
      for j := 0 to a.Length1
        invariant forall r, c :: 0 <= r < a.Length0 && 0 <= c < a.Length1 ==>
          a[r, c] == if (r < i || (r == i && c < j)) && segs[r][c] == s then Scale(old(a[r, c]), m) else old(a[r, c])
      {
        if segs[i][j] == s {
          a[i, j] := Scale(a[i, j], m);
        }
      }
    }
  }

  /** `bdist.clip(0, 1)`, in place. */
  method ClipAll(a: array2<real>)
    modifies a
    ensures forall i, j :: 0 <= i < a.Length0 && 0 <= j < a.Length1 ==> a[i, j] == Clip(old(a[i, j]))
  {
    for i := 0 to a.Length0
      invariant forall r, c :: 0 <= r < a.Length0 && 0 <= c < a.Length1 ==>
        a[r, c] == if r < i then Clip(old(a[r, c])) else old(a[r, c])
    {
      for j := 0 to a.Length1
        invariant forall r, c :: 0 <= r < a.Length0 && 0 <= c < a.Length1 ==>
          a[r, c] == if r < i || (r == i && c < j) then Clip(old(a[r, c])) else old(a[r, c])
      {
        a[i, j] := Clip(a[i, j]);
      }
    }
  }

  /** One segment of the loop: slivers get 0.1, the others their scaled distances. */
  method NormalizeSegment(a: array2<real>, segs: Grid<int>, s: int)
    requires Rect(segs) && a.Length0 == |segs| && a.Length1 == Width(segs) && Occurs(segs, s)
    modifies a
    ensures SameShape(old(Cells(a)), segs)
    ensures forall i, j :: 0 <= i < a.Length0 && 0 <= j < a.Length1 ==>
      a[i, j] == if segs[i][j] == s then (if Thin(segs, s) then 0.1 else Scale(old(a[i, j]), SegmentMax(old(Cells(a)), segs, s)))
                 else old(a[i, j])
  {
    var thin := SegmentIsThin(segs, s);
    if thin {
      Fill(a, segs, s, 0.1);
    } else {
      var vals := CollectSegment(a, segs, s);
      ScaleSegment(a, segs, s, MaxOf(vals));
    }
  }

  /** normalize_boundary_distances in place: the positive segment ids in ascending order,
      then the clip. */
  method NormalizeDistances(a: array2<real>, segs: Grid<int>)
    requires Rect(segs) && a.Length0 == |segs| && a.Length1 == Width(segs)
    modifies a
    ensures SameShape(old(Cells(a)), segs)
    ensures Cells(a) == Normalized(old(Cells(a)), segs)
  {
    ghost var g := Cells(a);
    var last: Option<int> := Some(0);
    var next, wi, wj := NextId(segs, last);
    while next.Some?
      invariant last.Some? && last.value >= 0
      invariant next.Some? ==> InBounds(segs, wi, wj) && segs[wi][wj] == next.value && Above(next.value, last)
      invariant forall i, j :: InBounds(segs, i, j) && Above(segs[i][j], last) ==> next.Some? && next.value <= segs[i][j]
      invariant forall i, j :: 0 <= i < a.Length0 && 0 <= j < a.Length1 ==>
        a[i, j] == if segs[i][j] > 0 && !Above(segs[i][j], last) then SegmentRule(g, segs, g[i][j], segs[i][j]) else g[i][j]
      decreases IdsAbove(segs, last)
    {
      var s := next.value;
      SegmentValuesDepend(Cells(a), g, segs, s);
      NormalizeSegment(a, segs, s);
      IdsShrink(segs, last, wi, wj);
      last := Some(s);
      next, wi, wj := NextId(segs, last);
    }
    ghost var scaled := Cells(a);
    ClipAll(a);
    forall i, j | InBounds(g, i, j)
      ensures Cells(a)[i][j] == Normalized(g, segs)[i][j]
    {
      assert segs[i][j] > 0 ==> !Above(segs[i][j], last);
      assert scaled[i][j] == SegmentRule(g, segs, g[i][j], segs[i][j]);
    }
    SamePixels(Cells(a), Normalized(g, segs));
  }
}

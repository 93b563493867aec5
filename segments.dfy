/** Segments of a segment map: the labels a segment covers, in row-major order, and
    the bounding-box test for one-pixel-thin segments. The segment map itself comes from
    a connected-component labelling, which is an input here. */
module Segments {
  import opened Grids

  /** The labels of the pixels of row `lrow` whose segment id is `s`, left to right. */
  function RowValues<T>(lrow: seq<T>, srow: seq<int>, s: int): seq<T>
    requires |lrow| == |srow|
    decreases |lrow|
  {
    if |lrow| == 0 then []
    else
      var n := |lrow| - 1;
      RowValues(lrow[..n], srow[..n], s) + (if srow[n] == s then [lrow[n]] else [])
  }

  /** The labels of segment `s` within the first `n` rows, row-major. */
  function ValuesUpTo<T>(labels: Grid<T>, segs: Grid<int>, s: int, n: nat): seq<T>
    requires SameShape(labels, segs) && n <= |labels|
  {
    if n == 0 then [] else ValuesUpTo(labels, segs, s, n - 1) + RowValues(labels[n - 1], segs[n - 1], s)
  }

  /** `labels[segments == s]`. */
  function SegmentValues<T>(labels: Grid<T>, segs: Grid<int>, s: int): seq<T>
    requires SameShape(labels, segs)
  {
    ValuesUpTo(labels, segs, s, |labels|)
  }

  /** Some pixel belongs to segment `s`. */
  predicate Occurs(segs: Grid<int>, s: int)
    requires Rect(segs)
  {
    exists i, j :: 0 <= i < |segs| && 0 <= j < Width(segs) && segs[i][j] == s
  }

  lemma {:induction false} RowValuesSpec<T>(lrow: seq<T>, srow: seq<int>, s: int, c: T)
    requires |lrow| == |srow|
    ensures (exists j :: 0 <= j < |srow| && srow[j] == s) <==> |RowValues(lrow, srow, s)| > 0
    ensures (forall j :: 0 <= j < |srow| && srow[j] == s ==> lrow[j] == c) ==>
      forall k :: 0 <= k < |RowValues(lrow, srow, s)| ==> RowValues(lrow, srow, s)[k] == c
    decreases |lrow|
  {
    if |lrow| > 0 {
      var n := |lrow| - 1;
      RowValuesSpec(lrow[..n], srow[..n], s, c);
      if exists j :: 0 <= j < |srow| && srow[j] == s {
        var j :| 0 <= j < |srow| && srow[j] == s;
        if j < n {
          assert srow[..n][j] == s;
        }
      }
      if exists j :: 0 <= j < n && srow[..n][j] == s {
        var j :| 0 <= j < n && srow[..n][j] == s;
        assert srow[j] == s;
      }
    }
  }

  lemma {:induction false} ValuesUpToSpec<T>(labels: Grid<T>, segs: Grid<int>, s: int, c: T, n: nat)
    requires SameShape(labels, segs) && n <= |labels|
    ensures (exists i, j :: 0 <= i < n && 0 <= j < Width(segs) && segs[i][j] == s) <==> |ValuesUpTo(labels, segs, s, n)| > 0
    ensures (forall i, j :: 0 <= i < |segs| && 0 <= j < Width(segs) && segs[i][j] == s ==> labels[i][j] == c) ==>
      forall k :: 0 <= k < |ValuesUpTo(labels, segs, s, n)| ==> ValuesUpTo(labels, segs, s, n)[k] == c
  {
    if n > 0 {
      ValuesUpToSpec(labels, segs, s, c, n - 1);
      RowValuesSpec(labels[n - 1], segs[n - 1], s, c);
      if exists i, j :: 0 <= i < n && 0 <= j < Width(segs) && segs[i][j] == s {
        var i, j :| 0 <= i < n && 0 <= j < Width(segs) && segs[i][j] == s;
        if i == n - 1 {
          assert segs[n - 1][j] == s;
        }
      }
    }
  }

  /** A segment that occurs has at least one value, and a segment whose pixels all carry
      one label has only that value. */
  lemma SegmentValuesSpec<T>(labels: Grid<T>, segs: Grid<int>, s: int, c: T)
    requires SameShape(labels, segs)
    ensures Occurs(segs, s) <==> |SegmentValues(labels, segs, s)| > 0
    ensures (forall i, j :: InBounds(segs, i, j) && segs[i][j] == s ==> labels[i][j] == c) ==>
      forall k :: 0 <= k < |SegmentValues(labels, segs, s)| ==> SegmentValues(labels, segs, s)[k] == c
  {
    ValuesUpToSpec(labels, segs, s, c, |labels|);
  }

  /** The pixel of row `srow` that the k-th value comes from. */
  lemma {:induction false} RowValueSource<T>(lrow: seq<T>, srow: seq<int>, s: int, k: int) returns (j: int)
    requires |lrow| == |srow| && 0 <= k < |RowValues(lrow, srow, s)|
    ensures 0 <= j < |srow| && srow[j] == s && lrow[j] == RowValues(lrow, srow, s)[k]
    decreases |lrow|
  {
    var n := |lrow| - 1;
    var init := RowValues(lrow[..n], srow[..n], s);
    assert RowValues(lrow, srow, s) == init + (if srow[n] == s then [lrow[n]] else []);
    if k < |init| {
      j := RowValueSource(lrow[..n], srow[..n], s, k);
      assert srow[..n][j] == srow[j] && lrow[..n][j] == lrow[j];
    } else {
      j := n;
    }
  }

  /** Where the label of pixel j of the row appears among the row's values. */
  lemma {:induction false} RowValueIndex<T>(lrow: seq<T>, srow: seq<int>, s: int, j: int) returns (k: int)
    requires |lrow| == |srow| && 0 <= j < |srow| && srow[j] == s
    ensures 0 <= k < |RowValues(lrow, srow, s)| && RowValues(lrow, srow, s)[k] == lrow[j]
    decreases |lrow|
  {
    var n := |lrow| - 1;
    var init := RowValues(lrow[..n], srow[..n], s);
    assert RowValues(lrow, srow, s) == init + (if srow[n] == s then [lrow[n]] else []);
    if j < n {
      assert srow[..n][j] == s;
      k := RowValueIndex(lrow[..n], srow[..n], s, j);
    } else {
      k := |init|;
    }
  }

  lemma {:induction false} ValueSourceUpTo<T>(labels: Grid<T>, segs: Grid<int>, s: int, n: nat, k: int) returns (i: int, j: int)
    requires SameShape(labels, segs) && n <= |labels| && 0 <= k < |ValuesUpTo(labels, segs, s, n)|
    ensures 0 <= i < n && 0 <= j < Width(segs) && segs[i][j] == s && labels[i][j] == ValuesUpTo(labels, segs, s, n)[k]
  {
    var init := ValuesUpTo(labels, segs, s, n - 1);
    assert ValuesUpTo(labels, segs, s, n) == init + RowValues(labels[n - 1], segs[n - 1], s);
    if k < |init| {
      i, j := ValueSourceUpTo(labels, segs, s, n - 1, k);
    } else {
      i := n - 1;
      j := RowValueSource(labels[n - 1], segs[n - 1], s, k - |init|);
    }
  }

  lemma {:induction false} ValueIndexUpTo<T>(labels: Grid<T>, segs: Grid<int>, s: int, n: nat, i: int, j: int) returns (k: int)
    requires SameShape(labels, segs) && n <= |labels| && 0 <= i < n && 0 <= j < Width(segs) && segs[i][j] == s
    ensures 0 <= k < |ValuesUpTo(labels, segs, s, n)| && ValuesUpTo(labels, segs, s, n)[k] == labels[i][j]
  {
    var init := ValuesUpTo(labels, segs, s, n - 1);
    assert ValuesUpTo(labels, segs, s, n) == init + RowValues(labels[n - 1], segs[n - 1], s);
    if i < n - 1 {
      k := ValueIndexUpTo(labels, segs, s, n - 1, i, j);
    } else {
      var m := RowValueIndex(labels[n - 1], segs[n - 1], s, j);
      k := |init| + m;
    }
  }

  /** Every value of a segment is the label of one of its pixels. */
  lemma SegmentValueSource<T>(labels: Grid<T>, segs: Grid<int>, s: int, k: int) returns (i: int, j: int)
    requires SameShape(labels, segs) && 0 <= k < |SegmentValues(labels, segs, s)|
    ensures InBounds(segs, i, j) && segs[i][j] == s && labels[i][j] == SegmentValues(labels, segs, s)[k]
  {
    i, j := ValueSourceUpTo(labels, segs, s, |labels|, k);
  }

  /** The label of every pixel of a segment is among its values. */
  lemma SegmentValueIndex<T>(labels: Grid<T>, segs: Grid<int>, s: int, i: int, j: int) returns (k: int)
    requires SameShape(labels, segs) && InBounds(segs, i, j) && segs[i][j] == s
    ensures 0 <= k < |SegmentValues(labels, segs, s)| && SegmentValues(labels, segs, s)[k] == labels[i][j]
  {
    k := ValueIndexUpTo(labels, segs, s, |labels|, i, j);
  }

  lemma {:induction false} RowValuesNonNeg(lrow: seq<int>, srow: seq<int>, s: int)
    requires |lrow| == |srow| && forall j :: 0 <= j < |lrow| ==> lrow[j] >= 0
    ensures forall k :: 0 <= k < |RowValues(lrow, srow, s)| ==> RowValues(lrow, srow, s)[k] >= 0
    decreases |lrow|
  {
    if |lrow| > 0 {
      RowValuesNonNeg(lrow[..|lrow| - 1], srow[..|srow| - 1], s);
    }
  }

  lemma {:induction false} ValuesUpToNonNeg(labels: Grid<int>, segs: Grid<int>, s: int, n: nat)
    requires SameShape(labels, segs) && n <= |labels|
    requires forall i, j :: InBounds(labels, i, j) ==> labels[i][j] >= 0
    ensures forall k :: 0 <= k < |ValuesUpTo(labels, segs, s, n)| ==> ValuesUpTo(labels, segs, s, n)[k] >= 0
  {
    if n > 0 {
      ValuesUpToNonNeg(labels, segs, s, n - 1);
      RowValuesNonNeg(labels[n - 1], segs[n - 1], s);
    }
  }

  /** Non-negative labels give non-negative segment values. */
  lemma SegmentValuesNonNeg(labels: Grid<int>, segs: Grid<int>, s: int)
    requires SameShape(labels, segs)
    requires forall i, j :: InBounds(labels, i, j) ==> labels[i][j] >= 0
    ensures forall k :: 0 <= k < |SegmentValues(labels, segs, s)| ==> SegmentValues(labels, segs, s)[k] >= 0
  {
    ValuesUpToNonNeg(labels, segs, s, |labels|);
  }

  lemma {:induction false} RowValuesDepend<T>(a: seq<T>, b: seq<T>, srow: seq<int>, s: int)
    requires |a| == |srow| && |b| == |srow|
    requires forall j :: 0 <= j < |srow| && srow[j] == s ==> a[j] == b[j]
    ensures RowValues(a, srow, s) == RowValues(b, srow, s)
    decreases |srow|
  {
    if |srow| > 0 {
      var n := |srow| - 1;
      RowValuesDepend(a[..n], b[..n], srow[..n], s);
    }
  }

  lemma {:induction false} ValuesUpToDepend<T>(a: Grid<T>, b: Grid<T>, segs: Grid<int>, s: int, n: nat)
    requires SameShape(a, segs) && SameShape(b, segs) && n <= |segs|
    requires forall i, j :: InBounds(segs, i, j) && segs[i][j] == s ==> a[i][j] == b[i][j]
    ensures ValuesUpTo(a, segs, s, n) == ValuesUpTo(b, segs, s, n)
  {
    if n > 0 {
      ValuesUpToDepend(a, b, segs, s, n - 1);
      RowValuesDepend(a[n - 1], b[n - 1], segs[n - 1], s);
    }
  }

  /** The values of a segment depend only on the labels of its own pixels. */
  lemma SegmentValuesDepend<T>(a: Grid<T>, b: Grid<T>, segs: Grid<int>, s: int)
    requires SameShape(a, segs) && SameShape(b, segs)
    requires forall i, j :: InBounds(segs, i, j) && segs[i][j] == s ==> a[i][j] == b[i][j]
    ensures SegmentValues(a, segs, s) == SegmentValues(b, segs, s)
  {
    ValuesUpToDepend(a, b, segs, s, |segs|);
  }

  /** All pixels of segment `s` lie in one row. */
  ghost predicate OneRow(segs: Grid<int>, s: int)
    requires Rect(segs)
  {
    forall i, j, a, b :: InBounds(segs, i, j) && InBounds(segs, a, b) && segs[i][j] == s && segs[a][b] == s ==> i == a
  }

  /** All pixels of segment `s` lie in one column. */
  ghost predicate OneCol(segs: Grid<int>, s: int)
    requires Rect(segs)
  {
    forall i, j, a, b :: InBounds(segs, i, j) && InBounds(segs, a, b) && segs[i][j] == s && segs[a][b] == s ==> j == b
  }

  /** A sliver: its bounding box is one pixel high or one pixel wide. */
  ghost predicate Thin(segs: Grid<int>, s: int)
    requires Rect(segs)
  {
    OneRow(segs, s) || OneCol(segs, s)
  }

  /** regionprops' bounding box of segment `s` (rows minRow..maxRow-1, columns
      minCol..maxCol-1) and the sliver test `max_row - min_row <= 1 or max_col - min_col <= 1`. */
  method SegmentIsThin(segs: Grid<int>, s: int) returns (thin: bool)
    requires Rect(segs) && Occurs(segs, s)
    ensures thin <==> Thin(segs, s)
  {
    var minRow, minCol, maxRow, maxCol := |segs|, Width(segs), 0, 0;
    ghost var wi, wj, xi, xj, yi, yj, zi, zj := 0, 0, 0, 0, 0, 0, 0, 0;
    for i := 0 to |segs|
      invariant maxRow <= i
      invariant forall r, c :: 0 <= r < i && 0 <= c < Width(segs) && segs[r][c] == s ==>
        minRow <= r < maxRow && minCol <= c < maxCol
      invariant minRow < |segs| ==> InBounds(segs, wi, wj) && segs[wi][wj] == s && wi == minRow
      invariant maxRow > 0 ==> InBounds(segs, xi, xj) && segs[xi][xj] == s && xi == maxRow - 1
      invariant minCol < Width(segs) ==> InBounds(segs, yi, yj) && segs[yi][yj] == s && yj == minCol
      invariant maxCol > 0 ==> InBounds(segs, zi, zj) && segs[zi][zj] == s && zj == maxCol - 1
      invariant minRow < |segs| <==> maxRow > 0
      invariant minRow < |segs| ==> minCol < Width(segs) && maxCol > 0
    {
      for j := 0 to Width(segs)
        invariant maxRow <= i + 1
        invariant forall r, c :: ((0 <= r < i && 0 <= c < Width(segs)) || (r == i && 0 <= c < j)) && segs[r][c] == s ==>
          minRow <= r < maxRow && minCol <= c < maxCol
        invariant minRow < |segs| ==> InBounds(segs, wi, wj) && segs[wi][wj] == s && wi == minRow
        invariant maxRow > 0 ==> InBounds(segs, xi, xj) && segs[xi][xj] == s && xi == maxRow - 1
        invariant minCol < Width(segs) ==> InBounds(segs, yi, yj) && segs[yi][yj] == s && yj == minCol
        invariant maxCol > 0 ==> InBounds(segs, zi, zj) && segs[zi][zj] == s && zj == maxCol - 1
        invariant minRow < |segs| <==> maxRow > 0
        invariant minRow < |segs| ==> minCol < Width(segs) && maxCol > 0
      {
        if segs[i][j] == s {
          if i < minRow { minRow, wi, wj := i, i, j; }
          if i + 1 > maxRow { maxRow, xi, xj := i + 1, i, j; }
          if j < minCol { minCol, yi, yj := j, i, j; }
          if j + 1 > maxCol { maxCol, zi, zj := j + 1, i, j; }
        }
      }
    }
    thin := maxRow - minRow <= 1 || maxCol - minCol <= 1;
    if maxRow - minRow > 1 {
      assert !OneRow(segs, s) by {
        assert InBounds(segs, wi, wj) && InBounds(segs, xi, xj) && wi != xi;
      }
    }
    if maxCol - minCol > 1 {
      assert !OneCol(segs, s) by {
        assert InBounds(segs, yi, yj) && InBounds(segs, zi, zj) && yj != zj;
      }
    }
  }

  /** `labels[segments == s] = v`, in place. */
  method Fill<T>(a: array2<T>, segs: Grid<int>, s: int, v: T)
    requires Rect(segs) && a.Length0 == |segs| && a.Length1 == Width(segs)
    modifies a
    ensures forall i, j :: 0 <= i < a.Length0 && 0 <= j < a.Length1 ==>
      a[i, j] == if segs[i][j] == s then v else old(a[i, j])
  {
    for i := 0 to a.Length0
      invariant forall r, c :: 0 <= r < a.Length0 && 0 <= c < a.Length1 ==>
        a[r, c] == if r < i && segs[r][c] == s then v else old(a[r, c])
    {
      for j := 0 to a.Length1
        invariant forall r, c :: 0 <= r < a.Length0 && 0 <= c < a.Length1 ==>
          a[r, c] == if (r < i || (r == i && c < j)) && segs[r][c] == s then v else old(a[r, c])
      {
        if segs[i][j] == s {
          a[i, j] := v;
        }
      }
    }
  }

  /** `labels[segments == s]` read from the array, row-major. */
  method CollectSegment<T>(a: array2<T>, segs: Grid<int>, s: int) returns (vals: seq<T>)
    requires Rect(segs) && a.Length0 == |segs| && a.Length1 == Width(segs)
    ensures vals == SegmentValues(Cells(a), segs, s)
  {
    ghost var g := Cells(a);
    vals := [];
    for i := 0 to a.Length0
      invariant vals == ValuesUpTo(g, segs, s, i)
    {
      ghost var before := vals;
      for j := 0 to a.Length1
        invariant vals == before + RowValues(g[i][..j], segs[i][..j], s)
      {
        assert g[i][..j + 1][..j] == g[i][..j];
        assert segs[i][..j + 1][..j] == segs[i][..j];
        if segs[i][j] == s {
          vals := vals + [a[i, j]];
        }
      }
      assert g[i][..a.Length1] == g[i];
      assert segs[i][..a.Length1] == segs[i];
    }
  }

  /** `s` comes after `last` in ascending id order (everything does when nothing came yet). */
  predicate Above(s: int, last: Option<int>) {
    last.None? || s > last.value
  }

  /** The smallest segment id above `last`, with a pixel that carries it: one step of
      visiting the ids in ascending order. */
  method NextId(segs: Grid<int>, last: Option<int>) returns (next: Option<int>, wi: int, wj: int)
    requires Rect(segs)
    ensures next.Some? ==> InBounds(segs, wi, wj) && segs[wi][wj] == next.value && Above(next.value, last)
    ensures forall i, j :: InBounds(segs, i, j) && Above(segs[i][j], last) ==> next.Some? && next.value <= segs[i][j]
  {
    next, wi, wj := None, 0, 0;
    for i := 0 to |segs|
      invariant next.Some? ==> InBounds(segs, wi, wj) && segs[wi][wj] == next.value && Above(next.value, last)
      invariant forall r, c :: 0 <= r < i && 0 <= c < Width(segs) && Above(segs[r][c], last) ==> next.Some? && next.value <= segs[r][c]
    {
      for j := 0 to Width(segs)
        invariant next.Some? ==> InBounds(segs, wi, wj) && segs[wi][wj] == next.value && Above(next.value, last)
        invariant forall r, c :: ((0 <= r < i && 0 <= c < Width(segs)) || (r == i && 0 <= c < j)) && Above(segs[r][c], last) ==>
          next.Some? && next.value <= segs[r][c]
      {
        var v := segs[i][j];
        if Above(v, last) && (next.None? || v < next.value) {
          next, wi, wj := Some(v), i, j;
        }
      }
    }
  }

  /** The ids of the segment map: numpy's `unique`. */
  ghost function SegmentIds(segs: Grid<int>): set<int>
    requires Rect(segs)
  {
    set i, j | 0 <= i < |segs| && 0 <= j < Width(segs) :: segs[i][j]
  }

  /** The ids still to visit after `last`. */
  ghost function IdsAbove(segs: Grid<int>, last: Option<int>): set<int>
    requires Rect(segs)
  {
    set s | s in SegmentIds(segs) && Above(s, last)
  }

  /** Visiting the id carried by pixel (wi, wj) strictly shrinks the ids still to visit. */
  lemma IdsShrink(segs: Grid<int>, last: Option<int>, wi: int, wj: int)
    requires Rect(segs) && InBounds(segs, wi, wj) && Above(segs[wi][wj], last)
    ensures IdsAbove(segs, Some(segs[wi][wj])) < IdsAbove(segs, last)
  {
    var s := segs[wi][wj];
    assert s in IdsAbove(segs, last);
    assert s !in IdsAbove(segs, Some(s));
  }
}

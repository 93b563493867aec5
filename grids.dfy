/** Rasters as rows of values, the array views the in-place operations work on,
    and the label classes shared by every stage of sample construction. */
module Grids {

  /** A raster: a sequence of rows. `Rect` says that every row has the same width. */
  type Grid<T> = seq<seq<T>>

  /** The class values of a label array before land-cover recoding. */
  const BACKGROUND: int := 0
  const CROP_CLASS: int := 1
  const EDGE_CLASS: int := 2

  /** The target data type: 'boundaries' or any other value, which means one class per crop code. */
  datatype DataType = Boundaries | MultiClass

  datatype Option<T> = None | Some(value: T)

  function Width<T>(g: Grid<T>): nat {
    if |g| == 0 then 0 else |g[0]|
  }

  predicate Rect<T>(g: Grid<T>) {
    forall i :: 0 <= i < |g| ==> |g[i]| == Width(g)
  }

  /** A rectangular raster with at least one pixel, as numpy's edge padding demands. */
  predicate NonEmpty<T>(g: Grid<T>) {
    Rect(g) && |g| > 0 && Width(g) > 0
  }

  predicate InBounds<T>(g: Grid<T>, i: int, j: int) {
    0 <= i < |g| && 0 <= j < Width(g)
  }

  predicate SameShape<T, U>(a: Grid<T>, b: Grid<U>) {
    Rect(a) && Rect(b) && |a| == |b| && Width(a) == Width(b)
  }

  /** The index that edge padding reads for position `k` of an axis of length `n`. */
  function Clamp(k: int, n: nat): (r: nat)
    requires n > 0
    ensures r < n
    ensures 0 <= k < n ==> r == k
    ensures k < 0 ==> r == 0
    ensures k >= n ==> r == n - 1
  {
    if k < 0 then 0 else if k >= n then n - 1 else k
  }

  /** numpy's conversion of a boolean to 0 or 1. */
  function Ind(b: bool): int {
    if b then 1 else 0
  }

  /** A pixelwise transform of one raster, as numpy applies a scalar expression. */
  function Map<T, U>(g: Grid<T>, f: T -> U): (r: Grid<U>)
    requires Rect(g)
    ensures SameShape(r, g)
    ensures forall i, j :: InBounds(g, i, j) ==> r[i][j] == f(g[i][j])
  {
    var r := seq(|g|, i requires 0 <= i < |g| => seq(Width(g), j requires 0 <= j < Width(g) => f(g[i][j])));
    assert forall i :: 0 <= i < |r| ==> |r[i]| == Width(g);
    r
  }

  /** A pixelwise combination of two rasters of one shape, as numpy's `where` does. */
  function Zip<T, U, V>(a: Grid<T>, b: Grid<U>, f: (T, U) -> V): (r: Grid<V>)
    requires SameShape(a, b)
    ensures SameShape(r, a)
    ensures forall i, j :: InBounds(a, i, j) ==> r[i][j] == f(a[i][j], b[i][j])
  {
    var r := seq(|a|, i requires 0 <= i < |a| => seq(Width(a), j requires 0 <= j < Width(a) => f(a[i][j], b[i][j])));
    assert forall i :: 0 <= i < |r| ==> |r[i]| == Width(a);
    r
  }

  /** The value of a two-dimensional array, row by row. */
  ghost function Cells<T>(a: array2<T>): (g: Grid<T>)
    reads a
    ensures Rect(g) && |g| == a.Length0
    ensures forall i :: 0 <= i < |g| ==> |g[i]| == a.Length1
    ensures forall i, j :: 0 <= i < a.Length0 && 0 <= j < a.Length1 ==> g[i][j] == a[i, j]
  {
    seq(a.Length0, i requires 0 <= i < a.Length0 reads a =>
      seq(a.Length1, j requires 0 <= j < a.Length1 reads a => a[i, j]))
  }

  /** The value of one layer of a three-dimensional array. */
  ghost function Layer<T>(a: array3<T>, k: nat): (g: Grid<T>)
    requires k < a.Length0
    reads a
    ensures Rect(g) && |g| == a.Length1
    ensures forall i :: 0 <= i < |g| ==> |g[i]| == a.Length2
    ensures forall i, j :: 0 <= i < a.Length1 && 0 <= j < a.Length2 ==> g[i][j] == a[k, i, j]
  {
    seq(a.Length1, i requires 0 <= i < a.Length1 reads a =>
      seq(a.Length2, j requires 0 <= j < a.Length2 reads a => a[k, i, j]))
  }

  /** A layer that agrees at every pixel with a raster of its shape is that raster. */
  lemma LayerIs<T>(a: array3<T>, k: nat, g: Grid<T>)
    requires k < a.Length0 && |g| == a.Length1 && forall i :: 0 <= i < |g| ==> |g[i]| == a.Length2
    requires forall i, j :: 0 <= i < a.Length1 && 0 <= j < a.Length2 ==> a[k, i, j] == g[i][j]
    ensures Layer(a, k) == g
  {
    SamePixels(Layer(a, k), g);
  }

  /** Two rasters of one shape that agree at every pixel are equal. */
  lemma SamePixels<T>(a: Grid<T>, b: Grid<T>)
    requires SameShape(a, b)
    requires forall i, j :: InBounds(a, i, j) ==> a[i][j] == b[i][j]
    ensures a == b
  {
    forall i | 0 <= i < |a|
      ensures a[i] == b[i]
    {
      assert forall j :: 0 <= j < |a[i]| ==> a[i][j] == b[i][j];
    }
  }
}

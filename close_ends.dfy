/** Closing one-pixel gaps at the image border: the outer rows and columns keep only
    their class-1 pixels, and the top row is copied from the row below it. */
module CloseEnds {
  import opened Grids

  /** numpy's `z = zeros; z[where(row == 1)] = 1`. */
  function Ones(row: seq<int>): (z: seq<int>)
    ensures |z| == |row| && forall k :: 0 <= k < |row| ==> z[k] == Ind(row[k] == 1)
  {
    seq(|row|, k requires 0 <= k < |row| => Ind(row[k] == 1))
  }

  /** The top row becomes the class-1 pixels of the second row. */
  function CloseTop(g: Grid<int>): (r: Grid<int>)
    requires NonEmpty(g) && |g| >= 2
    ensures NonEmpty(r) && SameShape(r, g)
  {
    g[0 := Ones(g[1])]
  }

  /** The bottom row keeps only its own class-1 pixels. */
  function CloseBottom(g: Grid<int>): (r: Grid<int>)
    requires NonEmpty(g)
    ensures NonEmpty(r) && SameShape(r, g)
  {
    g[|g| - 1 := Ones(g[|g| - 1])]
  }

  /** Column `c` keeps only its own class-1 pixels. */
  function CloseColumn(g: Grid<int>, c: nat): (r: Grid<int>)
    requires NonEmpty(g) && c < Width(g)
    ensures NonEmpty(r) && SameShape(r, g)
  {
    var r := seq(|g|, i requires 0 <= i < |g| => g[i][c := Ind(g[i][c] == 1)]);
    assert forall i :: 0 <= i < |r| ==> |r[i]| == Width(g);
    r
  }

  /** close_edge_ends: top, bottom, left and right, in that order. */
  function CloseEdgeEnds(g: Grid<int>): (r: Grid<int>)
    requires NonEmpty(g) && |g| >= 2
    ensures NonEmpty(r) && SameShape(r, g)
  {
    CloseColumn(CloseColumn(CloseBottom(CloseTop(g)), 0), Width(g) - 1)
  }

  /** The pixel the four steps leave at (i, j): the top row is the second row's class-1
      pixels, the bottom row and the outer columns keep their own class-1 pixels, and
      interior pixels are unchanged. */
  function Closed(g: Grid<int>, i: int, j: int): int
    requires NonEmpty(g) && |g| >= 2 && InBounds(g, i, j)
  {
    if i == 0 then Ind(g[1][j] == 1)
    else if i == |g| - 1 then Ind(g[i][j] == 1)
    else if j == 0 || j == Width(g) - 1 then Ind(g[i][j] == 1)
    else g[i][j]
  }

  /** The sequential steps agree at every pixel with the closed form. */
  lemma CloseEdgeEndsSpec(g: Grid<int>, i: int, j: int)
    requires NonEmpty(g) && |g| >= 2 && InBounds(g, i, j)
    ensures CloseEdgeEnds(g)[i][j] == Closed(g, i, j)
  {
    var w := Width(g);
    var t := CloseTop(g);
    var b := CloseBottom(t);
    var l := CloseColumn(b, 0);
    assert t[i][j] == if i == 0 then Ind(g[1][j] == 1) else g[i][j];
    assert b[i][j] == if i == |g| - 1 then Ind(t[i][j] == 1) else t[i][j];
    assert l[i][j] == if j == 0 then Ind(b[i][j] == 1) else b[i][j];
    assert CloseEdgeEnds(g)[i][j] == if j == w - 1 then Ind(l[i][j] == 1) else l[i][j];
  }

  /** Every border pixel is 0 or 1 afterwards, and no interior pixel changes. */
  lemma BorderIsBinary(g: Grid<int>, i: int, j: int)
    requires NonEmpty(g) && |g| >= 2 && InBounds(g, i, j)
    ensures i == 0 || i == |g| - 1 || j == 0 || j == Width(g) - 1 ==> CloseEdgeEnds(g)[i][j] in {0, 1}
    ensures 0 < i < |g| - 1 && 0 < j < Width(g) - 1 ==> CloseEdgeEnds(g)[i][j] == g[i][j]
  {
    CloseEdgeEndsSpec(g, i, j);
  }

  /** Closing the ends a second time changes nothing. */
  lemma CloseEdgeEndsIdempotent(g: Grid<int>)
    requires NonEmpty(g) && |g| >= 2
    ensures CloseEdgeEnds(CloseEdgeEnds(g)) == CloseEdgeEnds(g)
  {
    var c := CloseEdgeEnds(g);
    forall i, j | InBounds(c, i, j)
      ensures CloseEdgeEnds(c)[i][j] == c[i][j]
    {
      CloseEdgeEndsSpec(c, i, j);
      CloseEdgeEndsSpec(g, i, j);
      CloseEdgeEndsSpec(g, 1, j);
    }
    SamePixels(CloseEdgeEnds(c), c);
  }

  /** The top pass: row 0 takes the class-1 pixels of row 1. */
  method CloseTopInPlace(a: array2<int>)
    requires a.Length0 >= 2 && a.Length1 >= 1
    modifies a
    ensures Cells(a) == CloseTop(old(Cells(a)))
  {
    ghost var g := Cells(a);
    for j := 0 to a.Length1
      invariant forall c :: 0 <= c < j ==> a[0, c] == Ind(g[1][c] == 1)
      invariant forall r, c :: 0 <= r < a.Length0 && 0 <= c < a.Length1 && !(r == 0 && c < j) ==> a[r, c] == g[r][c]
    {
      a[0, j] := if a[1, j] == 1 then 1 else 0;
    }
    SamePixels(Cells(a), CloseTop(g));
  }

  /** The bottom pass: the last row keeps its class-1 pixels. */
  method CloseBottomInPlace(a: array2<int>)
    requires a.Length0 >= 1 && a.Length1 >= 1
    modifies a
    ensures Cells(a) == CloseBottom(old(Cells(a)))
  {
    ghost var g := Cells(a);
    var last := a.Length0 - 1;
    for j := 0 to a.Length1
      invariant forall c :: 0 <= c < j ==> a[last, c] == Ind(g[last][c] == 1)
      invariant forall r, c :: 0 <= r < a.Length0 && 0 <= c < a.Length1 && !(r == last && c < j) ==> a[r, c] == g[r][c]
    {
      a[last, j] := if a[last, j] == 1 then 1 else 0;
    }
    SamePixels(Cells(a), CloseBottom(g));
  }

  /** A column pass: column `col` keeps its class-1 pixels. */
  method CloseColumnInPlace(a: array2<int>, col: nat)
    requires a.Length0 >= 1 && col < a.Length1
    modifies a
    ensures Cells(a) == CloseColumn(old(Cells(a)), col)
  {
    ghost var g := Cells(a);
    for i := 0 to a.Length0
      invariant forall r :: 0 <= r < i ==> a[r, col] == Ind(g[r][col] == 1)
      invariant forall r, c :: 0 <= r < a.Length0 && 0 <= c < a.Length1 && !(c == col && r < i) ==> a[r, c] == g[r][c]
    {
      a[i, col] := if a[i, col] == 1 then 1 else 0;
    }
    SamePixels(Cells(a), CloseColumn(g, col));
  }

  /** close_edge_ends on the label array, in place: top, bottom, left, right. */
  method CloseEdgeEndsInPlace(a: array2<int>)
    requires a.Length0 >= 2 && a.Length1 >= 1
    modifies a
    ensures Cells(a) == CloseEdgeEnds(old(Cells(a)))
  {
    CloseTopInPlace(a);
    CloseBottomInPlace(a);
    CloseColumnInPlace(a, 0);
    CloseColumnInPlace(a, a.Length1 - 1);
  }
}

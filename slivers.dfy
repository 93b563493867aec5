/** Sliver removal: segments whose bounding box is one pixel high or one pixel wide are
    set to background, then the pixels flagged by the `edges` mask are set to the edge class. */
module Slivers {
  import opened Grids
  import opened Segments

  /** The label of a pixel of segment `s` after the bounding-box test. Segment 0 is the
      background of the segment map and is never visited. */
  ghost function Desliver(labels: Grid<int>, segs: Grid<int>): (r: Grid<int>)
    requires SameShape(labels, segs)
    ensures SameShape(r, labels)
  {
    Zip(labels, segs, (x: int, s: int) => if s > 0 && Thin(segs, s) then BACKGROUND else x)
  }

  /** `labels_array[edges == 1] = EDGE_CLASS`. */
  function ImposeEdge(x: int, e: int): int {
    if e == 1 then EDGE_CLASS else x
  }

  /** check_slivers on values: slivers cleared, then the edge mask imposed. */
  ghost function CheckSliversSpec(labels: Grid<int>, edges: Grid<int>, segs: Grid<int>): (r: Grid<int>)
    requires SameShape(labels, segs) && SameShape(labels, edges)
    ensures SameShape(r, labels)
  {
    Zip(Desliver(labels, segs), edges, ImposeEdge)
  }

  /** The value of every pixel: the edge class on the mask; off the mask, background on a
      sliver segment and the prior label everywhere else. */
  lemma CheckSliversRule(labels: Grid<int>, edges: Grid<int>, segs: Grid<int>, i: int, j: int)
    requires SameShape(labels, segs) && SameShape(labels, edges) && InBounds(labels, i, j)
    ensures edges[i][j] == 1 ==> CheckSliversSpec(labels, edges, segs)[i][j] == EDGE_CLASS
    ensures edges[i][j] != 1 && segs[i][j] > 0 && Thin(segs, segs[i][j]) ==>
      CheckSliversSpec(labels, edges, segs)[i][j] == BACKGROUND
    ensures edges[i][j] != 1 && !(segs[i][j] > 0 && Thin(segs, segs[i][j])) ==>
      CheckSliversSpec(labels, edges, segs)[i][j] == labels[i][j]
  {
    assert Desliver(labels, segs)[i][j] == if segs[i][j] > 0 && Thin(segs, segs[i][j]) then BACKGROUND else labels[i][j];
  }

  /** No other pixel changes: a changed pixel is on the edge mask or on a sliver. */
  lemma OnlySliversAndEdgesChange(labels: Grid<int>, edges: Grid<int>, segs: Grid<int>)
    requires SameShape(labels, segs) && SameShape(labels, edges)
    ensures forall i, j :: InBounds(labels, i, j) && CheckSliversSpec(labels, edges, segs)[i][j] != labels[i][j] ==>
      edges[i][j] == 1 || (segs[i][j] > 0 && Thin(segs, segs[i][j]))
  {
    forall i, j | InBounds(labels, i, j) && CheckSliversSpec(labels, edges, segs)[i][j] != labels[i][j]
      ensures edges[i][j] == 1 || (segs[i][j] > 0 && Thin(segs, segs[i][j]))
    {
      CheckSliversRule(labels, edges, segs, i, j);
    }
  }

  /** Labels in background/crop/edge stay in those classes. */
  lemma CheckSliversClasses(labels: Grid<int>, edges: Grid<int>, segs: Grid<int>)
    requires SameShape(labels, segs) && SameShape(labels, edges)
    requires forall i, j :: InBounds(labels, i, j) ==> 0 <= labels[i][j] <= EDGE_CLASS
    ensures forall i, j :: InBounds(labels, i, j) ==> 0 <= CheckSliversSpec(labels, edges, segs)[i][j] <= EDGE_CLASS
  {
    forall i, j | InBounds(labels, i, j)
      ensures 0 <= CheckSliversSpec(labels, edges, segs)[i][j] <= EDGE_CLASS
    {
      CheckSliversRule(labels, edges, segs, i, j);
    }
  }

  /** Running the check a second time with the same masks changes nothing. */
  lemma CheckSliversIdempotent(labels: Grid<int>, edges: Grid<int>, segs: Grid<int>)
    requires SameShape(labels, segs) && SameShape(labels, edges)
    ensures CheckSliversSpec(CheckSliversSpec(labels, edges, segs), edges, segs) == CheckSliversSpec(labels, edges, segs)
  {
    var once := CheckSliversSpec(labels, edges, segs);
    var twice := CheckSliversSpec(once, edges, segs);
    forall i, j | InBounds(labels, i, j)
      ensures twice[i][j] == once[i][j]
    {
      CheckSliversRule(labels, edges, segs, i, j);
      CheckSliversRule(once, edges, segs, i, j);
    }
    SamePixels(twice, once);
  }

  /** `labels_array[edges == 1] = EDGE_CLASS`, in place. */
  method ImposeEdges(a: array2<int>, edges: Grid<int>)
    requires Rect(edges) && a.Length0 == |edges| && a.Length1 == Width(edges)
    modifies a
    ensures forall i, j :: 0 <= i < a.Length0 && 0 <= j < a.Length1 ==> a[i, j] == ImposeEdge(old(a[i, j]), edges[i][j])
  {
    for i := 0 to a.Length0
      invariant forall r, c :: 0 <= r < a.Length0 && 0 <= c < a.Length1 ==>
        a[r, c] == if r < i then ImposeEdge(old(a[r, c]), edges[r][c]) else old(a[r, c])
    {
      for j := 0 to a.Length1
        invariant forall r, c :: 0 <= r < a.Length0 && 0 <= c < a.Length1 ==>
          a[r, c] == if r < i || (r == i && c < j) then ImposeEdge(old(a[r, c]), edges[r][c]) else old(a[r, c])
      {
        if edges[i][j] == 1 {
          a[i, j] := EDGE_CLASS;
        }
      }
    }
  }

  /** The loop step for the smallest id `s` not yet visited: afterwards every visited thin
      segment, `s` included, is background. */
  method VisitSliver(a: array2<int>, segs: Grid<int>, ghost g: Grid<int>, last: Option<int>, s: int)
    requires Rect(segs) && a.Length0 == |segs| && a.Length1 == Width(segs) && SameShape(g, segs)
    requires last.Some? && last.value >= 0 && Above(s, last) && Occurs(segs, s)
    requires forall i, j :: 0 <= i < a.Length0 && 0 <= j < a.Length1 ==>
      a[i, j] == if segs[i][j] > 0 && !Above(segs[i][j], last) && Thin(segs, segs[i][j]) then BACKGROUND else g[i][j]
    requires forall i, j :: InBounds(segs, i, j) && Above(segs[i][j], last) ==> s <= segs[i][j]
    modifies a
    ensures forall i, j :: 0 <= i < a.Length0 && 0 <= j < a.Length1 ==>
      a[i, j] == if segs[i][j] > 0 && !Above(segs[i][j], Some(s)) && Thin(segs, segs[i][j]) then BACKGROUND else g[i][j]
  {
    var thin := SegmentIsThin(segs, s);
    if thin {
      Fill(a, segs, s, BACKGROUND);
    }
  }

  /** check_slivers in place: the positive segment ids in ascending order, as regionprops
      lists them, each sliver filled with background; then the edge mask. */
  method CheckSlivers(a: array2<int>, edges: Grid<int>, segs: Grid<int>)
    requires Rect(segs) && a.Length0 == |segs| && a.Length1 == Width(segs)
    requires SameShape(edges, segs)
    modifies a
    ensures SameShape(old(Cells(a)), segs)
    ensures Cells(a) == CheckSliversSpec(old(Cells(a)), edges, segs)
  {
    ghost var g := Cells(a);
    var last: Option<int> := Some(0);
    var next, wi, wj := NextId(segs, last);
    while next.Some?
      invariant last.Some? && last.value >= 0
      invariant next.Some? ==> InBounds(segs, wi, wj) && segs[wi][wj] == next.value && Above(next.value, last)
      invariant forall i, j :: InBounds(segs, i, j) && Above(segs[i][j], last) ==> next.Some? && next.value <= segs[i][j]
      invariant forall i, j :: 0 <= i < a.Length0 && 0 <= j < a.Length1 ==>
        a[i, j] == if segs[i][j] > 0 && !Above(segs[i][j], last) && Thin(segs, segs[i][j]) then BACKGROUND else g[i][j]
      decreases IdsAbove(segs, last)
    {
      var s := next.value;
      VisitSliver(a, segs, g, last, s);
      IdsShrink(segs, last, wi, wj);
      last := Some(s);
      next, wi, wj := NextId(segs, last);
    }
    ghost var cleared := Cells(a);
    forall i, j | InBounds(g, i, j)
      ensures cleared[i][j] == Desliver(g, segs)[i][j]
    {
      assert segs[i][j] > 0 ==> !Above(segs[i][j], last);
    }
    SamePixels(cleared, Desliver(g, segs));
    ImposeEdges(a, edges);
    SamePixels(Cells(a), CheckSliversSpec(g, edges, segs));
  }
}

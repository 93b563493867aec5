/** Edge-label derivation: from a rasterized field mask to a background / crop / edge
    label array. The morphological thinning is a foreign algorithm, so its result (the
    skeleton) is an input; `Thinned` states the one thing about it the lemmas rely on. */
module EdgeLabels {
  import opened Grids
  import opened Focal

  /** Candidate edges: pixels whose focal comparison is strictly between 0 and 8. */
  function Candidates(cmp: Grid<int>): Grid<int>
    requires Rect(cmp)
  {
    Map(cmp, (c: int) => Ind(0 < c < 8))
  }

  /** Every field pixel (> 0) becomes CROP_CLASS. */
  function Binarize(g: Grid<int>): Grid<int>
    requires Rect(g)
  {
    Map(g, (x: int) => if x > 0 then CROP_CLASS else x)
  }

  /** Skeleton pixels become EDGE_CLASS. */
  function OverlayEdges(lab: Grid<int>, skel: Grid<int>): Grid<int>
    requires SameShape(lab, skel)
  {
    Zip(lab, skel, (x: int, s: int) => if s == 1 then EDGE_CLASS else x)
  }

  /** The cleanup of the thinning output as create.py writes it: a pixel on original
      background that is not an edge is set to background. */
  function CleanThinning(orig: Grid<int>, lab: Grid<int>): Grid<int>
    requires SameShape(orig, lab)
  {
    Zip(orig, lab, (o: int, x: int) => if o == 0 && x != EDGE_CLASS then 0 else x)
  }

  function CropIndicator(lab: Grid<int>): Grid<int>
    requires Rect(lab)
  {
    Map(lab, (x: int) => Ind(x == CROP_CLASS))
  }

  /** Fragment cleanup by the 3x3 focal sum of the crop indicator. */
  function CleanFragments(lab: Grid<int>): Grid<int>
    requires NonEmpty(lab)
  {
    var count := FocalStat(CropIndicator(lab), Sum);
    Zip(count, lab, (n: int, x: int) => if n < 2 then 0 else if n < 4 then EDGE_CLASS else x)
  }

  /** The labels before fragment cleanup. */
  function Overlaid(g: Grid<int>, skel: Grid<int>): Grid<int>
    requires NonEmpty(g) && SameShape(skel, g)
  {
    CleanThinning(g, OverlayEdges(Binarize(g), skel))
  }

  /** The whole derivation, from the rasterized mask and the thinned candidate mask. */
  function EdgeLabels(g: Grid<int>, skel: Grid<int>): (r: Grid<int>)
    requires NonEmpty(g) && SameShape(skel, g)
    ensures SameShape(r, g)
  {
    CleanFragments(Overlaid(g, skel))
  }

  /** Thinning only removes pixels: the skeleton is a 0/1 subset of the candidate edges. */
  ghost predicate Thinned(g: Grid<int>, skel: Grid<int>)
    requires NonEmpty(g) && SameShape(skel, g)
  {
    var cand := Candidates(FocalCompare(g));
    forall i, j :: InBounds(g, i, j) ==> (skel[i][j] == 0 || skel[i][j] == 1) && (skel[i][j] == 1 ==> cand[i][j] == 1)
  }

  /** A pixel is an edge candidate exactly when it is a field pixel with at most six of
      its eight edge-padded neighbours equal to it. */
  lemma CandidateSpec(g: Grid<int>, i: int, j: int)
    requires NonEmpty(g) && InBounds(g, i, j)
    ensures Candidates(FocalCompare(g))[i][j] == 1 <==> g[i][j] > 0 && NeighbourMatches(g, i, j) < 7
    ensures Candidates(FocalCompare(g))[i][j] in {0, 1}
  {
    var cmp := FocalCompare(g);
    assert Candidates(cmp)[i][j] == Ind(0 < cmp[i][j] < 8);
    FocalCompareSpec(g, i, j);
  }

  /** The cleanup as written changes nothing: a pixel on original background is 0 after
      binarizing, so unless it became an edge it is already 0. */
  lemma CleanThinningIsIdentity(g: Grid<int>, skel: Grid<int>)
    requires NonEmpty(g) && SameShape(skel, g)
    ensures Overlaid(g, skel) == OverlayEdges(Binarize(g), skel)
  {
    var lab := OverlayEdges(Binarize(g), skel);
    SamePixels(Overlaid(g, skel), lab);
  }

  /** Before the fragment cleanup, an edge lies only on an original field pixel. */
  lemma EdgesOnField(g: Grid<int>, skel: Grid<int>, i: int, j: int)
    requires NonEmpty(g) && SameShape(skel, g) && Thinned(g, skel) && InBounds(g, i, j)
    ensures Overlaid(g, skel)[i][j] == EDGE_CLASS ==> g[i][j] > 0
  {
    CandidateSpec(g, i, j);
  }

  /** Fragment cleanup: a pixel whose 3x3 crop count is below 2 becomes background, one
      whose count is 2 or 3 becomes an edge, any other keeps its label. */
  lemma FragmentRule(g: Grid<int>, skel: Grid<int>, i: int, j: int)
    requires NonEmpty(g) && SameShape(skel, g) && InBounds(g, i, j)
    ensures var lab := Overlaid(g, skel);
      var n := WindowSum(CropIndicator(lab), i, j);
      EdgeLabels(g, skel)[i][j] == if n < 2 then BACKGROUND else if n < 4 then EDGE_CLASS else lab[i][j]
  {
    FocalSumIsWindowSum(CropIndicator(Overlaid(g, skel)), i, j);
  }

  /** The labels are classes 0, 1 and 2, and a crop pixel is a field pixel that is not on
      the skeleton and whose 3x3 window holds at least four crop pixels. */
  lemma EdgeLabelClasses(g: Grid<int>, skel: Grid<int>, i: int, j: int)
    requires NonEmpty(g) && SameShape(skel, g) && InBounds(g, i, j) && g[i][j] >= 0
    ensures EdgeLabels(g, skel)[i][j] in {BACKGROUND, CROP_CLASS, EDGE_CLASS}
    ensures EdgeLabels(g, skel)[i][j] == CROP_CLASS <==>
      g[i][j] > 0 && skel[i][j] != 1 && WindowSum(CropIndicator(Overlaid(g, skel)), i, j) >= 4
  {
    FragmentRule(g, skel, i, j);
  }

  /** Before fragment cleanup, original background stays background. */
  lemma BackgroundStays(g: Grid<int>, skel: Grid<int>, i: int, j: int)
    requires NonEmpty(g) && SameShape(skel, g) && Thinned(g, skel) && InBounds(g, i, j) && g[i][j] == 0
    ensures Overlaid(g, skel)[i][j] == BACKGROUND
  {
    CandidateSpec(g, i, j);
  }

  /** Where the window holds no crop pixel, fragment cleanup leaves background. */
  lemma NoCropNoLabel(g: Grid<int>, skel: Grid<int>, i: int, j: int)
    requires NonEmpty(g) && SameShape(skel, g) && InBounds(g, i, j)
    requires forall a, b :: InBounds(g, a, b) ==> CropIndicator(Overlaid(g, skel))[a][b] == 0
    ensures EdgeLabels(g, skel)[i][j] == BACKGROUND
  {
    FragmentRule(g, skel, i, j);
  }

  /** A mask without fields gives labels without crop or edge. */
  lemma AllBackground(g: Grid<int>, skel: Grid<int>)
    requires NonEmpty(g) && SameShape(skel, g) && Thinned(g, skel)
    requires forall i, j :: InBounds(g, i, j) ==> g[i][j] == 0
    ensures forall i, j :: InBounds(g, i, j) ==> EdgeLabels(g, skel)[i][j] == BACKGROUND
  {
    forall i, j | InBounds(g, i, j)
      ensures CropIndicator(Overlaid(g, skel))[i][j] == 0
    {
      BackgroundStays(g, skel, i, j);
    }
    forall i, j | InBounds(g, i, j)
      ensures EdgeLabels(g, skel)[i][j] == BACKGROUND
    {
      NoCropNoLabel(g, skel, i, j);
    }
  }
}

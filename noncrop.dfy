/** Non-crop masking: the distance layer (the last layer of the image variables) is zeroed
    off the crop labels, then every label whose four edge-padded neighbours carry no
    positive distance is zeroed. */
module Noncrop {
  import opened Grids
  import opened Focal

  /** `bdist * np.uint8(labels_array > 0)`. */
  function MaskDistances(dist: Grid<real>, labels: Grid<int>): (r: Grid<real>)
    requires SameShape(dist, labels)
    ensures SameShape(r, dist)
  {
    Zip(dist, labels, (d: real, l: int) => d * (Ind(l > 0) as real))
  }

  /** The masked layer keeps the distance on crop labels and is zero elsewhere. */
  lemma MaskDistancesAt(dist: Grid<real>, labels: Grid<int>, i: int, j: int)
    requires SameShape(dist, labels) && InBounds(dist, i, j)
    ensures labels[i][j] > 0 ==> MaskDistances(dist, labels)[i][j] == dist[i][j]
    ensures labels[i][j] <= 0 ==> MaskDistances(dist, labels)[i][j] == 0.0
  {
    assert MaskDistances(dist, labels)[i][j] == dist[i][j] * (Ind(labels[i][j] > 0) as real);
  }

  /** Non-negative distances stay non-negative once masked. */
  lemma MaskDistancesNonNeg(dist: Grid<real>, labels: Grid<int>)
    requires SameShape(dist, labels)
    requires forall i, j :: InBounds(dist, i, j) ==> dist[i][j] >= 0.0
    ensures forall i, j :: InBounds(dist, i, j) ==> MaskDistances(dist, labels)[i][j] >= 0.0
  {
    forall i, j | InBounds(dist, i, j)
      ensures MaskDistances(dist, labels)[i][j] >= 0.0
    {
      MaskDistancesAt(dist, labels, i, j);
    }
  }

  /** The sum of the four axis rolls of the padded raster at (a, b). */
  function FourRolls(pad: Grid<real>, a: int, b: int): real
    requires NonEmpty(pad) && InBounds(pad, a, b)
  {
    CyclicShift(pad, 0, 1)[a][b] + CyclicShift(pad, 0, -1)[a][b]
      + CyclicShift(pad, 1, 0)[a][b] + CyclicShift(pad, -1, 0)[a][b]
  }

  /** `dist_mean / 4.0`: the four rolls summed inside the padded raster's one-pixel border,
      zero on that border. */
  function DistMean(pad: Grid<real>): (r: Grid<real>)
    requires NonEmpty(pad)
    ensures SameShape(r, pad)
  {
    var h, w := |pad|, Width(pad);
    var r := seq(h, a requires 0 <= a < h => seq(w, b requires 0 <= b < w =>
      (if 1 <= a < h - 1 && 1 <= b < w - 1 then FourRolls(pad, a, b) else 0.0) / 4.0));
    assert forall a :: 0 <= a < h ==> |r[a]| == w;
    r
  }

  /** `g[p:-p, p:-p]`. */
  function Crop<T>(g: Grid<T>, p: nat): (r: Grid<T>)
    requires Rect(g) && |g| > 2 * p && Width(g) > 2 * p
    ensures Rect(r) && |r| == |g| - 2 * p && Width(r) == Width(g) - 2 * p
    ensures forall i, j :: InBounds(r, i, j) ==> r[i][j] == g[i + p][j + p]
  {
    var h, w := |g| - 2 * p, Width(g) - 2 * p;
    var r := seq(h, i requires 0 <= i < h => seq(w, j requires 0 <= j < w => g[i + p][j + p]));
    assert forall i :: 0 <= i < h ==> |r[i]| == w;
    r
  }

  /** The 4-neighbour mean of create.py: pad by 5 pixels, average the rolls, crop. */
  function NeighbourMean(dist: Grid<real>): (r: Grid<real>)
    requires NonEmpty(dist)
    ensures SameShape(r, dist)
  {
    Crop(DistMean(EdgePad(dist, 5)), 5)
  }

  /** At every pixel the mean is that of its four edge-padded neighbours. */
  lemma NeighbourMeanAt(dist: Grid<real>, i: int, j: int)
    requires NonEmpty(dist) && InBounds(dist, i, j)
    ensures NeighbourMean(dist)[i][j] ==
      (Neighbour(dist, i, j, 0, -1) + Neighbour(dist, i, j, 0, 1)
        + Neighbour(dist, i, j, -1, 0) + Neighbour(dist, i, j, 1, 0)) / 4.0
  {
    MeanOfPad(dist, i, j);
    FourRollsOfPad(dist, i, j);
  }

  /** The cropped mean at (i, j) is the mean of the four rolls at (i, j) in the padding. */
  lemma MeanOfPad(dist: Grid<real>, i: int, j: int)
    requires NonEmpty(dist) && InBounds(dist, i, j)
    ensures NeighbourMean(dist)[i][j] == FourRolls(EdgePad(dist, 5), i + 5, j + 5) / 4.0
  {
    CroppedMean(dist, i, j);
    DistMeanAt(EdgePad(dist, 5), i + 5, j + 5);
  }

  lemma CroppedMean(dist: Grid<real>, i: int, j: int)
    requires NonEmpty(dist) && InBounds(dist, i, j)
    ensures NeighbourMean(dist)[i][j] == DistMean(EdgePad(dist, 5))[i + 5][j + 5]
  {
  }

  lemma DistMeanAt(pad: Grid<real>, a: int, b: int)
    requires NonEmpty(pad) && 1 <= a < |pad| - 1 && 1 <= b < Width(pad) - 1
    ensures DistMean(pad)[a][b] == FourRolls(pad, a, b) / 4.0
  {
  }

  lemma FourRollsOfPad(dist: Grid<real>, i: int, j: int)
    requires NonEmpty(dist) && InBounds(dist, i, j)
    ensures FourRolls(EdgePad(dist, 5), i + 5, j + 5) ==
      Neighbour(dist, i, j, 0, -1) + Neighbour(dist, i, j, 0, 1)
        + Neighbour(dist, i, j, -1, 0) + Neighbour(dist, i, j, 1, 0)
  {
    RollPair(dist, 0, 1, i, j);
    RollPair(dist, 1, 0, i, j);
  }

  /** The roll by (s0, s1) and the roll by (-s0, -s1) read the two opposite neighbours. */
  lemma RollPair(dist: Grid<real>, s0: int, s1: int, i: int, j: int)
    requires NonEmpty(dist) && InBounds(dist, i, j) && -1 <= s0 <= 1 && -1 <= s1 <= 1
    ensures CyclicShift(EdgePad(dist, 5), s0, s1)[i + 5][j + 5] == Neighbour(dist, i, j, -s0, -s1)
    ensures CyclicShift(EdgePad(dist, 5), -s0, -s1)[i + 5][j + 5] == Neighbour(dist, i, j, s0, s1)
  {
    ShiftOfEdgePad(dist, 5, s0, s1, i, j);
    ShiftOfEdgePad(dist, 5, -s0, -s1, i, j);
  }

  /** Some 4-neighbour (edge-padded) of (i, j) has a positive value. */
  predicate PositiveNeighbour(dist: Grid<real>, i: int, j: int)
    requires NonEmpty(dist)
  {
    Neighbour(dist, i, j, 0, -1) > 0.0 || Neighbour(dist, i, j, 0, 1) > 0.0
      || Neighbour(dist, i, j, -1, 0) > 0.0 || Neighbour(dist, i, j, 1, 0) > 0.0
  }

  /** `labels_array * np.uint8(dist_mean > 0)`. */
  function KeepCrop(labels: Grid<int>, dist: Grid<real>): (r: Grid<int>)
    requires NonEmpty(dist) && SameShape(labels, dist)
    ensures SameShape(r, labels)
  {
    Zip(labels, NeighbourMean(dist), (l: int, m: real) => l * Ind(m > 0.0))
  }

  /** With non-negative distances a label is kept exactly when a 4-neighbour has a
      positive distance, and zeroed otherwise. */
  lemma KeepCropRule(labels: Grid<int>, dist: Grid<real>, i: int, j: int)
    requires NonEmpty(dist) && SameShape(labels, dist) && InBounds(dist, i, j)
    requires forall a, b :: InBounds(dist, a, b) ==> dist[a][b] >= 0.0
    ensures PositiveNeighbour(dist, i, j) ==> KeepCrop(labels, dist)[i][j] == labels[i][j]
    ensures !PositiveNeighbour(dist, i, j) ==> KeepCrop(labels, dist)[i][j] == 0
  {
    NeighbourMeanAt(dist, i, j);
    var m := NeighbourMean(dist)[i][j];
    assert KeepCrop(labels, dist)[i][j] == labels[i][j] * Ind(m > 0.0);
    NeighbourNonNeg(dist, i, j, 0, -1);
    NeighbourNonNeg(dist, i, j, 0, 1);
    NeighbourNonNeg(dist, i, j, -1, 0);
    NeighbourNonNeg(dist, i, j, 1, 0);
    MeanPositive(Neighbour(dist, i, j, 0, -1), Neighbour(dist, i, j, 0, 1),
      Neighbour(dist, i, j, -1, 0), Neighbour(dist, i, j, 1, 0));
  }

  lemma NeighbourNonNeg(dist: Grid<real>, i: int, j: int, di: int, dj: int)
    requires NonEmpty(dist)
    requires forall a, b :: InBounds(dist, a, b) ==> dist[a][b] >= 0.0
    ensures Neighbour(dist, i, j, di, dj) >= 0.0
  {
    assert InBounds(dist, Clamp(i + di, |dist|), Clamp(j + dj, Width(dist)));
  }

  lemma MeanPositive(w: real, e: real, n: real, s: real)
    requires w >= 0.0 && e >= 0.0 && n >= 0.0 && s >= 0.0
    ensures (w + e + n + s) / 4.0 > 0.0 <==> w > 0.0 || e > 0.0 || n > 0.0 || s > 0.0
  {
  }

  /** remove_noncrop as a whole on values: with non-negative distances, a label survives
      iff one of its 4-neighbours is a crop pixel with a positive distance. */
  lemma RemoveNoncropRule(labels: Grid<int>, dist: Grid<real>, i: int, j: int)
    requires NonEmpty(dist) && SameShape(labels, dist) && InBounds(dist, i, j)
    requires forall a, b :: InBounds(dist, a, b) ==> dist[a][b] >= 0.0
    ensures var masked := MaskDistances(dist, labels);
      KeepCrop(labels, masked)[i][j] == if CropNeighbour(labels, dist, i, j) then labels[i][j] else 0
  {
    var masked := MaskDistances(dist, labels);
    MaskDistancesNonNeg(dist, labels);
    KeepCropRule(labels, masked, i, j);
    MaskedNeighbour(labels, dist, i, j, 0, -1);
    MaskedNeighbour(labels, dist, i, j, 0, 1);
    MaskedNeighbour(labels, dist, i, j, -1, 0);
    MaskedNeighbour(labels, dist, i, j, 1, 0);
    assert PositiveNeighbour(masked, i, j) <==> CropNeighbour(labels, dist, i, j);
  }

  /** A neighbour of the masked layer is positive iff it is a crop label with a positive distance. */
  lemma MaskedNeighbour(labels: Grid<int>, dist: Grid<real>, i: int, j: int, di: int, dj: int)
    requires NonEmpty(dist) && SameShape(labels, dist)
    ensures Neighbour(MaskDistances(dist, labels), i, j, di, dj) > 0.0 <==> CropAt(labels, dist, i, j, di, dj)
  {
    MaskDistancesAt(dist, labels, Clamp(i + di, |dist|), Clamp(j + dj, Width(dist)));
  }

  /** The edge-padded neighbour at (di, dj) is a crop label with a positive distance. */
  predicate CropAt(labels: Grid<int>, dist: Grid<real>, i: int, j: int, di: int, dj: int)
    requires NonEmpty(dist) && SameShape(labels, dist)
  {
    Neighbour(labels, i, j, di, dj) > 0 && Neighbour(dist, i, j, di, dj) > 0.0
  }

  predicate CropNeighbour(labels: Grid<int>, dist: Grid<real>, i: int, j: int)
    requires NonEmpty(dist) && SameShape(labels, dist)
  {
    CropAt(labels, dist, i, j, 0, -1) || CropAt(labels, dist, i, j, 0, 1)
      || CropAt(labels, dist, i, j, -1, 0) || CropAt(labels, dist, i, j, 1, 0)
  }

  /** A pixel whose four neighbours are all non-crop loses its label. */
  lemma IsolatedLabelRemoved(labels: Grid<int>, dist: Grid<real>, i: int, j: int)
    requires NonEmpty(dist) && SameShape(labels, dist) && InBounds(dist, i, j)
    requires forall a, b :: InBounds(dist, a, b) ==> dist[a][b] >= 0.0
    requires Neighbour(labels, i, j, 0, -1) <= 0 && Neighbour(labels, i, j, 0, 1) <= 0
    requires Neighbour(labels, i, j, -1, 0) <= 0 && Neighbour(labels, i, j, 1, 0) <= 0
    ensures KeepCrop(labels, MaskDistances(dist, labels))[i][j] == 0
  {
    RemoveNoncropRule(labels, dist, i, j);
  }

  /** The value of one layer of a three-dimensional array, read row by row. */
  method ReadLayer(a: array3<real>, k: nat) returns (g: Grid<real>)
    requires k < a.Length0
    ensures g == Layer(a, k)
  {
    g := [];
    for i := 0 to a.Length1
      invariant |g| == i && forall r :: 0 <= r < i ==> g[r] == Layer(a, k)[r]
    {
      var row := [];
      for j := 0 to a.Length2
        invariant row == Layer(a, k)[i][..j]
      {
        row := row + [a[k, i, j]];
      }
      g := g + [row];
    }
  }

  /** `xvars[-1] = bdist * np.uint8(labels_array > 0)`, in place. */
  method MaskLastLayer(xvars: array3<real>, labels: Grid<int>)
    requires xvars.Length0 >= 1 && Rect(labels) && |labels| == xvars.Length1 && Width(labels) == xvars.Length2
    modifies xvars
    ensures forall k, i, j :: 0 <= k < xvars.Length0 && 0 <= i < xvars.Length1 && 0 <= j < xvars.Length2 ==>
      xvars[k, i, j] == if k == xvars.Length0 - 1 then old(xvars[k, i, j]) * (Ind(labels[i][j] > 0) as real) else old(xvars[k, i, j])
  {
    var last := xvars.Length0 - 1;
    for i := 0 to xvars.Length1
      invariant forall k, r, c :: 0 <= k < xvars.Length0 && 0 <= r < xvars.Length1 && 0 <= c < xvars.Length2 ==>
        xvars[k, r, c] == if k == last && r < i then old(xvars[k, r, c]) * (Ind(labels[r][c] > 0) as real) else old(xvars[k, r, c])
    {
      for j := 0 to xvars.Length2
        invariant forall k, r, c :: 0 <= k < xvars.Length0 && 0 <= r < xvars.Length1 && 0 <= c < xvars.Length2 ==>
          xvars[k, r, c] == if k == last && (r < i || (r == i && c < j)) then old(xvars[k, r, c]) * (Ind(labels[r][c] > 0) as real) else old(xvars[k, r, c])
      {
        xvars[last, i, j] := xvars[last, i, j] * (Ind(labels[i][j] > 0) as real);
      }
    }
  }

  /** remove_noncrop: the last layer of `xvars` is masked in place, the other layers are
      unchanged, and the returned labels are those kept by the 4-neighbour mean of the masked layer. */
  method RemoveNoncrop(xvars: array3<real>, labels: Grid<int>) returns (kept: Grid<int>)
    requires xvars.Length0 >= 1 && NonEmpty(labels) && |labels| == xvars.Length1 && Width(labels) == xvars.Length2
    modifies xvars
    ensures forall k :: 0 <= k < xvars.Length0 - 1 ==> Layer(xvars, k) == old(Layer(xvars, k))
    ensures SameShape(old(Layer(xvars, xvars.Length0 - 1)), labels)
    ensures Layer(xvars, xvars.Length0 - 1) == MaskDistances(old(Layer(xvars, xvars.Length0 - 1)), labels)
    ensures kept == KeepCrop(labels, Layer(xvars, xvars.Length0 - 1))
  {
    var last := xvars.Length0 - 1;
    ghost var before := Layer(xvars, last);
    ghost var layers := map k | 0 <= k < xvars.Length0 :: Layer(xvars, k);
    MaskLastLayer(xvars, labels);
    forall k | 0 <= k < last
      ensures Layer(xvars, k) == layers[k]
    {
      LayerIs(xvars, k, layers[k]);
    }
    LayerIs(xvars, last, MaskDistances(before, labels));
    var bdist := ReadLayer(xvars, last);
    kept := KeepCrop(labels, bdist);
  }
}
